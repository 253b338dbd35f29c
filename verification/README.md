# A verified model of MCPaw's index, call guards, chunkers, templates and usage log

MCPaw turns HTTP APIs into tools and keeps, per instance, a semantic-search index of
what those APIs hold. This project models the parts of it that carry state, loops or
arithmetic, in the form the Go code has them: classes for the objects whose methods
update their fields, methods with loops for the loops, functions for what only computes.
Each method is proved against a specification function or relation, and the theorems
are about those. `dafny verify dfyconfig.toml` checks everything.

The world outside the program answers through parameters, so every theorem speaks about
every pattern of answers: which database transactions are let through, which embedding
batches fail, which listings and fetches fail, whether a crawl fails, what the clock and
the file size read. The content hash and the embedder are arbitrary functions.

**The incremental index.** `Store` holds the chunk, keyword, document and meta tables
and their transactions, `Vector` the stored form of a vector. `Indexer` is a run: crawl,
skip, replace, prune, record the model. `DocumentView` reduces a run to what it does to
each single document; on it rest `Consistency` (what any failure pattern leaves),
`UpdateIsRebuild` (Update against Rebuild from scratch), `SingleModel` (no mixed
vectors) and `Forever` and `Interleaved` (all of it over every sequence of runs of every
instance). `Stored` says of a text itself what the index holds of it. `RunCounts` is
about the counters, `Runs` about Reindex calls and background runs interleaved. `Gitea`,
`Zotero` and `Linkding` are the crawlers, over `Library` and `Source`: what a crawl
reports, and what an untruncated one has seen, hence what an update may prune. `Search`
and `Rank` are the ranking of a query's answer. `HealthyRuns` builds the histories used
as examples.

**The call guards.** `Limiter` (token bucket), `Breaker` and `BreakerHistory` (circuit
breaker), `Calls` (concurrent calls as a step system, one step per critical section) and
`Executor` (`Execute` itself, proved to be a legal sequence of those steps). `Outage` and
`Throttle` say what breaker and limiter then do to calls in every interleaving.

**The chunkers.** `Text`, `Utf8`, `Chunk`, `Heading`, `ChunkHeading`.

**Templates and the usage log.** `Template` and `TemplateRender` are the parser and the
renderer, `TemplateGrammar` and `TemplateMeaning` say what they accept and produce
without them, `TemplateRoundTrip` that parts and source determine each other; `Usage`,
`Timestamps`.

## Where the code differs from what it says

The model follows the code. Each of these is a theorem here.

- Update refuses to mix embedder models only while a meta row exists. A Rebuild whose
  crawl fails leaves chunks and no meta row, and the next Update, under another model,
  is let in (`SingleModel.FailedRebuildLetsModelsMix`). `SingleModel.OneModelIff` says
  for every store and run, from what the run is given, when the single model is lost.
- An Update in which no call fails and no key is repeated, under the model of the index,
  need not leave what Rebuild leaves from the same crawl.
  `UpdateIsRebuild.UpdateMatchesRebuildIff` says exactly when it does, for every store.
  Of documents that earlier runs left whole, and with a hash without collisions
  (`UpdateIsRebuild.UpdateOfWholeIff`), it differs on three kinds: a known document
  emitted with a text that yields no chunks (`UpdateIsRebuild.BlankedDocumentIsStale`);
  a known one that a truncated crawl missed; and one whose chunks an earlier run cleared
  and did not replace, emitted with the text its row still records, which counts as
  unchanged and is skipped (`UpdateIsRebuild.LostChunksAreNotRepaired`).
- A failing `UpsertDocument` is only logged, and can leave a row that does not describe
  the chunks (`Consistency.UnrecordedTextIsNotWhole`; the exact condition under every
  pattern of failures is `Consistency.ConsistentIff`).
- Zotero and Linkding report a failed per-item listing as an empty placeholder without
  `truncated`, and Zotero lists at most 50 children, so an update can prune documents
  that are still there (`Zotero.FailedListingPrunesLiveDocument`,
  `Linkding.FailedListingPrunesLiveDocument`, `Zotero.ChildPastFiftiethIsPruned`;
  exactly when: `Library.PruningSafeIff`, `Zotero.FullyListedIff`).
- A half-open circuit admits every call, not one probe
  (`BreakerHistory.HalfOpenAdmitsEveryCall`).
- Past 4096 keys the breaker drops the entry it has just created
  (`Breaker.FetchedIsBounded`), so while the map stays full a key without an entry is
  never refused, however often it fails (`Breaker.OverflowIsNeverRefused`).
- The usage log's "oldest" is oldest by timestamp text. Within one second that is not
  time order when one fraction is a prefix of the other (`Timestamps.SameSecondOrderIff`),
  and, where every row costs the same, a prune deletes one row more than needed exactly
  when `Usage.OvershootIff` says.
- A string argument equal to a numeric default comes out of `RenderValue` as a number
  (`TemplateRender.PresentValueKeptIff`, `TemplateRender.StringBecomesNumber`).
- `splitSections` returns nil not only for a text without headings but also for one that
  consists of heading lines alone (`Heading.NoSectionsIff`); `ChunkHeading` then falls
  back to the size splitter (`ChunkHeading.HeadingLinesAlone`).
- The longest text the default splitter is sure to leave uncut by the 200-chunk limit is
  104,082 runes, exactly (`Chunk.ShortTextIsNeverCut`, `Chunk.LongerTextMayBeCut`).

## Model

| member | source | states |
|---|---|---|
| Store.SearchIndexRepo.ClearInstance | internal/store/sqlitestore/searchindex.go:36-54 | A transaction: it empties one instance in all tables, or changes nothing; the keyword rows still mirror the chunk rows |
| Store.SearchIndexRepo.InsertChunks | internal/store/sqlitestore/searchindex.go:56-97 | A transaction: all chunks with fresh consecutive ids and their keyword rows, or nothing; the mirror is kept |
| Store.SearchIndexRepo.DeleteDocumentChunks | internal/store/sqlitestore/searchindex.go:104-153 | A transaction: exactly one document's chunks and their keyword rows go, or nothing does |
| Store.SearchIndexRepo.ListDocuments | internal/store/sqlitestore/searchindex.go:215-238 | Exactly the instance's document rows |
| Store.SearchIndexRepo.UpsertDocument | internal/store/sqlitestore/searchindex.go:240-249 | One row is inserted or replaced, or nothing changes |
| Store.SearchIndexRepo.DeleteDocument | internal/store/sqlitestore/searchindex.go:251-256 | One row is removed, or nothing changes; chunks are untouched |
| Store.SearchIndexRepo.GetMeta | internal/store/sqlitestore/searchindex.go:258-277 | The instance's meta row, if any |
| Store.SearchIndexRepo.SetMeta | internal/store/sqlitestore/searchindex.go:279-289 | The instance's meta row is replaced, or nothing changes |
| Store.MirrorWithoutDoc | internal/store/sqlitestore/searchindex.go:104-153 | Deleting keyword rows by the selected chunk ids leaves the mirror of the chunks that remain |
| Store.MirrorWithoutInstance | internal/store/sqlitestore/searchindex.go:36-54 | Deleting keyword rows by instance leaves the mirror of the chunks that remain |
| Store.MirrorIs | internal/store/sqlitestore/searchindex.go:56-97 | The keyword table holds one row per chunk, in order, with that chunk's own text, instance and id |
| Vector.EncodeVector | internal/store/sqlitestore/searchindex.go:20-26 | The buffer holds each value's four bytes, least significant first |
| Vector.DecodeVector | internal/store/sqlitestore/searchindex.go:28-34 | Each result is the word its four bytes spell |
| Vector.DecodeEncode | internal/store/sqlitestore/searchindex.go:17-34 | A stored vector is read back bit for bit |
| Vector.EncodeDecode | internal/store/sqlitestore/searchindex.go:17-34 | Reading any bytes and storing again reproduces them, less an incomplete last word |
| Vector.BytesSpell | internal/store/sqlitestore/searchindex.go:17-26 | Each stored value is the sum of its four bytes times 1, 256, 65536 and 16777216 |
| Store.ViewCleared | internal/store/sqlitestore/searchindex.go:36-54 | Clearing makes every document of one instance absent and touches no other |
| Store.ViewInserted | internal/store/sqlitestore/searchindex.go:56-97 | Inserting appends to one document's chunks and touches no other |
| Store.ViewChunksDeleted | internal/store/sqlitestore/searchindex.go:104-153 | Deleting chunks empties one document, leaves its row, and touches no other |
| Indexer.Indexer.Reindex | internal/service/index.go:321-345 | A run starts if and only if none is running for the instance, with a zeroed status record of its own; otherwise nothing changes |
| Indexer.Indexer.ChunkDocument | internal/service/index.go:513-558 | Without a dialect the spans of the size splitter (1000, 150), with one those of the heading splitter: the first 200 of them, or all if there are no more |
| Indexer.Indexer.EmbedDocument | internal/service/index.go:513-541 | Either a batch fails and nothing is returned, or every kept span is paired, in order, with its own vector |
| Indexer.Indexer.IndexDocument | internal/service/index.go:513-547 | The complete chunk list is stored, or nothing is; the chunk counter moves by what was stored |
| Indexer.Indexer.Replace | internal/service/index.go:436-464 | Under every failure the store and counters are what the outcome of the emission says, including old chunks deleted and not replaced |
| Indexer.Indexer.Emit | internal/service/index.go:427-465 | One emit does to store, seen set, dimension and counters exactly one step of the run's specification |
| Indexer.Indexer.Prune | internal/service/index.go:474-491 | Every unseen document goes, except those whose chunk or row deletion fails, and only completed ones are counted |
| Indexer.Indexer.RunReindex | internal/service/index.go:347-500 | A whole run, under every pattern of failures, ends not running, with the store and counters its specification gives |
| Indexer.Indexer.Finish | internal/service/index.go:615-633 | The run is over and its counters stand |
| Stored.StoredIsSplit | internal/service/index.go:513-558 | Chunk i of a document's complete list is the i-th span of the splitter its dialect asks for, with that span's own vector; the first min(200, n) are kept |
| Stored.PlainChunksQuote | internal/service/index.go:513-558 | Without a dialect every stored text is a stretch of the document within its offsets, at most 1000 runes, and carries that stretch's vector |
| Stored.PlainTextIsStored | internal/service/index.go:513-558 | Without a dialect every visible rune is stored at its own place, unless the text splits into more than 200 chunks, which no text of up to 104,082 runes does |
| Stored.SectionChunksCite | internal/index/heading.go:147-188 | Of a text with sections every stored chunk cites a section under the breadcrumb of a line the section holds, and carries its own text's vector |
| Stored.SectionTextIsStored | internal/index/heading.go:147-188 | Every visible rune outside heading lines is stored at its own place under its line's breadcrumb, unless there are more than 200 chunks |
| Stored.NestedHeadingsInIndex | internal/index/heading.go:107-188 | A heading, a deeper one and a short body are indexed as one chunk: both titles in order, a blank line, the body |
| Stored.OutcomeIff | internal/service/index.go:427-464 | Exactly when an emission is empty, skipped, failed (a deletion, one of its batches or its insertion fails), without chunks, or written |
| Stored.EmbeddingFailsIff | internal/service/index.go:523-530 | A document is lost to its embedding exactly when the failing batch of sixteen is one of its own |
| Stored.RefusedRun | internal/service/index.go:347-416 | A run stops early, with an error and no change, exactly when it is not ready, a Rebuild cannot clear, or an Update cannot read meta or rows or finds another model |
| Stored.RecordedModel | internal/service/index.go:389-392 | A run that changes the meta row records the configured model, or the default when none is |
| Stored.RebuildLeaves | internal/service/index.go:394-465 | A healthy Rebuild leaves for each emitted document the row and complete chunk list of its text, nothing for a blank or chunkless one, and nothing of any other |
| DocumentView.EmitView | internal/service/index.go:427-465 | An emit changes the document it is about, by its outcome, and no other of any instance |
| DocumentView.PrunedView | internal/service/index.go:474-491 | Pruning changes exactly the documents it is told to |
| DocumentView.RunView | internal/service/index.go:347-500 | A run's effect on each document depends on that document's own emits and pruning; other instances keep everything |
| Consistency.ConsistentIff | internal/service/index.go:427-491 | From a consistent index, under every pattern of failing calls, failing UpsertDocument included: the index stays consistent if and only if every document without a row is stored at most once and then recorded, and every known one has its lasting text recorded or keeps a row that fits it |
| Consistency.DocumentWholeIff | internal/service/index.go:427-491 | The same for one document: no chunks, or the complete chunk list of one text whose hash is its row's |
| Consistency.KnownWholeIff | internal/service/index.go:436-463 | A known document comes out of a crawl whole if and only if its lasting text is recorded or the row it keeps fits it |
| Consistency.KnownFold | internal/service/index.go:436-463 | What a known document's row and chunks are after any crawl: the last text recorded, and the text stored for good |
| Consistency.UnrecordedTextIsNotWhole | internal/service/index.go:457-463 | A healthy Rebuild and an Update that only fails to record a changed text leave the old text's row over the new text's chunks |
| Consistency.KnownStaysWhole | internal/service/index.go:436-455 | While recording rows succeeds, a document with a row survives failed deletions, embeddings and inserts whole |
| Consistency.NewGrows | internal/service/index.go:446-463 | A document without a row is untouched, stored once whole, or spoilt for good |
| UpdateIsRebuild.UpdateMatchesRebuildIff | internal/service/index.go:394-491 | From every store, without faults and repeats and under the index's model, Update leaves the rows, hashes, chunk texts and vectors of a Rebuild on the same crawl if and only if no document is stale |
| UpdateIsRebuild.UpdateOfWholeIff | internal/service/index.go:394-491 | From whole documents, rows without chunks included: the same, where stale means known and emitted without chunks to make, emitted with the text of a row whose chunks are lost, or missed by a truncated crawl |
| UpdateIsRebuild.SameDocumentIff | internal/service/index.go:427-491 | The same for one document |
| UpdateIsRebuild.UpdateStep | internal/service/index.go:433-464 | One emit of an update leaves what a rebuild would if and only if a known document's text is indexable and, when it counts as unchanged, already stored; and a new one has no chunks left over |
| UpdateIsRebuild.BlankedDocumentIsStale | internal/service/index.go:429-433 | A document stored by a Rebuild and then emitted blank keeps its old chunks under Update and is absent after Rebuild |
| UpdateIsRebuild.LostChunksAreNotRepaired | internal/service/index.go:437-450 | After a failed embedding, a healthy Update that sees the old text again leaves the document without chunks, where Rebuild stores it |
| SingleModel.OneModelIff | internal/service/index.go:389-499 | From a single model, for every run and every failure: a single model is left if and only if the run is refused, updates under an existing meta row, stores nothing for good, or records its model |
| SingleModel.ChunksAfterIff | internal/service/index.go:427-491 | A run that begins without chunks ends with chunks exactly when some emission is written and not cleared later |
| SingleModel.DimensionIff | internal/service/index.go:456 | A run has a dimension to record exactly when the last document it stored has a non-empty first vector |
| SingleModel.OneModelMeansMeta | internal/service/index.go:389-410 | After any run from a single model only the meta row can be missing, never a vector of another model |
| SingleModel.RunFromModel | internal/service/index.go:389-465 | Whatever fails, all vectors after a run that was let in come from its model |
| SingleModel.RunMeta | internal/service/index.go:466-499 | Exactly when a run writes the meta row, and with what |
| SingleModel.RunKeepsOneModel | internal/service/index.go:389-499 | A run whose crawl and SetMeta succeed leaves a single model |
| SingleModel.OtherRunKeepsOneModel | internal/service/index.go:347-500 | Runs of other instances cannot mix an instance's models |
| SingleModel.NothingStored | internal/service/index.go:493-499 | With non-empty vectors, a run that records no dimension has stored nothing |
| SingleModel.FailedRebuildLetsModelsMix | internal/service/index.go:466-469 | A failed Rebuild and a later Update under another model leave two models in one index |
| Forever.OneModelForever | internal/service/index.go:389-499 | Over every sequence of whole runs with changing settings in which no crawl and no SetMeta fails, one model per instance |
| Forever.ConsistentForever | internal/service/index.go:427-491 | Over every sequence of whole runs with any failing deletes, embeddings, inserts and crawls, every document stays whole |
| Forever.UpdateAfterHistoryIff | internal/service/index.go:389-499 | After any such history, exactly when a healthy Update repairs the index to what a Rebuild would leave |
| Interleaved.RunTxsAre | internal/service/index.go:347-500 | A run's transactions, applied in order, do what the run does, in whatever order it prunes |
| Interleaved.StepKeepsInv | internal/service/index.go:347-500 | Every transaction of any instance's run keeps every instance in step with whole runs |
| Interleaved.Serializable | internal/service/index.go:347-500 | However runs of different instances interleave their transactions, an idle instance holds what running the finished runs whole gives it |
| Interleaved.OneModelInterleaved | internal/service/index.go:389-499 | One model per instance in every such interleaving |
| Interleaved.ConsistentInterleaved | internal/service/index.go:427-491 | Every document whole in every such interleaving |
| RunCounts.CountsAddUp | internal/service/index.go:560-633 | Items are skipped, empty, failed, written or chunkless; chunks counted are chunks stored; pruned counts the known documents not emitted whose deletions succeed, and none after a Rebuild or a failed or truncated crawl; an error shows exactly when the crawl or an emission failed |
| RunCounts.CrawlCounts | internal/service/index.go:427-465 | The same at every moment of the crawl |
| Runs.StepKeepsInv | internal/service/index.go:321-633 | Every Reindex call and every single counter update of any run, in any order, keeps each record with its newest run and each tally adding up |
| Runs.AtMostOneRun | internal/service/index.go:329-334 | In every interleaving at most one run per instance is unfinished |
| Runs.RunningMeansUnfinished | internal/service/index.go:626-633 | Running is true exactly from a run's start to its finish |
| Runs.CountersAreOneRuns | internal/service/index.go:560-613 | The counters shown are those of the instance's newest run alone |
| Runs.FinishedRunsAddUp | internal/service/index.go:427-465 | In every interleaving a finished run's items are those skipped, empty, failed, written and chunked to nothing, and its chunk count is what was stored |
| Source.PrunesOnlyGoneIff | internal/service/index.go:471-491 | An update after an untruncated crawl prunes only what is gone if and only if the crawl emitted every live document |
| Source.UnseenIsPruned | internal/service/index.go:474-491 | A known document that such a crawl did not emit is absent after the update, unless deleting it fails |
| Library.WholeListing | internal/index/source/zotero/zotero.go:47-78 | A crawl that is neither failed nor truncated emitted the whole paged listing, in order |
| Library.CrawlReportsDocuments | internal/index/source/zotero/zotero.go:47-138 | An untruncated, successful crawl emits every document shown with its own text (none when it cannot be fetched), one empty placeholder per item that shows none, and nothing else |
| Library.RebuildStoresDocument | internal/index/source/zotero/zotero.go:47-138 | A healthy Rebuild fed by such a crawl leaves for each document shown the row and complete chunk list of its text |
| Library.EmitsPrefix | internal/index/source/zotero/zotero.go:47-78 | Every crawl emits a prefix of the listing, and a truncated one processed at least the cap |
| Library.TruncatedIff | internal/index/source/linkding/linkding.go:45-77 | With all pages served, truncation is reported exactly when the full pages hold the cap |
| Library.AllLiveEmittedIff | internal/index/source/linkding/linkding.go:85-117 | Every live document was emitted if and only if every item was fully listed |
| Library.PruningSafeIff | internal/index/source/zotero/zotero.go:87-123 | An update fed by an untruncated crawl prunes only what is gone if and only if every item was fully listed |
| Library.LostDocumentIsPruned | internal/index/source/linkding/linkding.go:89-92 | A live document that its item's listing does not return is absent after an untruncated update |
| Library.EmitsDistinct | internal/index/source/zotero/zotero.go:87-138 | No key is emitted twice |
| Library.RunsAreWellFed | internal/index/source/zotero/zotero.go:47-138 | Every run fed by such a crawl, truncated or not, meets what the index theorems assume of its emissions |
| Zotero.Crawl | internal/index/source/zotero/zotero.go:47-78 | The paging loop emits and returns what the crawl's specification says, for every listing and failure |
| Zotero.CrawlItem | internal/index/source/zotero/zotero.go:87-123 | One emit per visible document, or one placeholder |
| Zotero.CrawlAttachment | internal/index/source/zotero/zotero.go:129-138 | A failed fetch is an emit with empty text |
| Zotero.ReportsItem | internal/index/source/zotero/zotero.go:87-138 | An item's emits are exactly those of the PDF and HTML attachments with a key among its first 50 children, or a placeholder when there is none |
| Zotero.CrawlReports | internal/index/source/zotero/zotero.go:47-138 | An untruncated, successful crawl emits that for every item with a key, and nothing else |
| Zotero.ListedInFull | internal/index/source/zotero/zotero.go:31 | A listed item with at most 50 children is fully listed |
| Zotero.FullyListedIff | internal/index/source/zotero/zotero.go:87-123 | An item is fully listed exactly when each of its documents is among the first 50 children of a listing that succeeds |
| Zotero.ChildPastFiftiethIsPruned | internal/index/source/zotero/zotero.go:31 | In any library, a known document past the fiftieth child is absent after an untruncated update |
| Zotero.FailedListingPrunesLiveDocument | internal/index/source/zotero/zotero.go:90-93 | In any library, when listing an item's children fails, each of its known documents is absent after an untruncated update |
| Linkding.Crawl | internal/index/source/linkding/linkding.go:45-77 | The paging loop emits and returns what the crawl's specification says |
| Linkding.CrawlBookmark | internal/index/source/linkding/linkding.go:85-117 | One emit per completed snapshot, or one placeholder |
| Linkding.CrawlAsset | internal/index/source/linkding/linkding.go:122-129 | A failed fetch is an emit with empty text |
| Linkding.ReportsBookmark | internal/index/source/linkding/linkding.go:85-129 | A bookmark's emits are exactly those of the complete, numbered snapshots returned, stripped of markup, or a placeholder when there is none |
| Linkding.CrawlReports | internal/index/source/linkding/linkding.go:45-129 | An untruncated, successful crawl emits that for every bookmark with a number, and nothing else |
| Linkding.ListedInFull | internal/index/source/linkding/linkding.go:89-94 | A bookmark whose listing succeeds and returns all assets is fully listed |
| Linkding.FailedListingPrunesLiveDocument | internal/index/source/linkding/linkding.go:89-92 | In any library, when listing a bookmark's assets fails, each of its known documents is absent after an untruncated update |
| Linkding.DistinctIdsListedOnce | internal/index/source/linkding/linkding.go:86-87 | Bookmarks with different numbers never share a key |
| Linkding.DecimalReads | internal/index/source/linkding/linkding.go:86-87 | A key spells its number in decimal digits without leading zeros |
| Gitea.DiscoverRepos | internal/index/source/gitea/gitea.go:92-141 | All usable repositories, or the first 500 and the truncated flag exactly when there are that many, or an error exactly when a page asked for before that fails |
| Gitea.CrawlRepo | internal/index/source/gitea/gitea.go:147-182 | Candidates are emitted in order until the crawl-wide file cap; the flag is the server's, or says that the cap cut the tree short |
| Gitea.FetchFile | internal/index/source/gitea/gitea.go:190-209 | A file that cannot be read or decoded is an emit with empty text |
| Gitea.Crawl | internal/index/source/gitea/gitea.go:66-86 | The crawl of the discovered repositories emits and returns what its specification says |
| Gitea.EmitsListed | internal/index/source/gitea/gitea.go:66-86 | A crawl emits a prefix of what the trees list, and all of it when it claims no truncation, which no tree then had |
| Gitea.CrawlReportsFiles | internal/index/source/gitea/gitea.go:66-209 | An untruncated, successful crawl emits exactly the blobs with a path, a sha and a known extension in the covered repositories, each under its own key and dialect with its own text, or none when it cannot be read |
| Gitea.ExtensionIff | internal/index/source/gitea/gitea.go:211-216 | A path has an extension exactly when it ends in it, in whatever case |
| Gitea.RebuildStoresFile | internal/index/source/gitea/gitea.go:66-209 | A healthy Rebuild fed by such a crawl leaves for each such file the row and complete chunk list of its text |
| Gitea.CrawlTruncatedIff | internal/index/source/gitea/gitea.go:66-86 | When every tree is listed, a crawl is truncated exactly when discovery was, a tree was, or the trees list 2000 files or more |
| Gitea.ReposCap | internal/index/source/gitea/gitea.go:92-141 | Discovery takes the first 500 usable repositories and is truncated exactly when there are as many |
| Gitea.CoveredAre | internal/index/source/gitea/gitea.go:92-141 | Usable are exactly the repositories that are not empty and have an owner, a name and a branch |
| Gitea.PruningIsSafe | internal/index/source/gitea/gitea.go:66-209 | Under every pattern of unreadable files, an update after an untruncated crawl prunes only files that are gone |
| Gitea.FileKeyInjective | internal/index/source/gitea/gitea.go:185-191 | A key determines the repository and the path, so files of different repositories never share one |
| Gitea.DialectIsOfKey | internal/index/source/gitea/gitea.go:44-48 | A document's dialect is a function of its key |
| Gitea.RunsAreWellFed | internal/index/source/gitea/gitea.go:66-209 | Every run fed by a crawl repeats no key and splits each document as its key says |
| Search.Nearest | internal/service/index.go:683-698 | Exactly the chunks above the relevance floor, each once, most similar first |
| Search.CollectHits | internal/service/index.go:720-731 | One hit per fused id that is a stored chunk, in order |
| Search.Search | internal/service/index.go:668-732 | The hits are the first entries of the fusion of the vector pool and the keyword ranking, each one justified by one of the two |
| Search.HitsAreJustified | internal/service/index.go:685-695 | Every hit is a stored chunk that clears the relevance floor or is a keyword match, and there are at most limit of them |
| Search.Limits | internal/service/index.go:683-718 | The floor is 0.3, the pool the 40 most similar, and there are at most limit hits, or 6 when the limit is not between 1 and 20 |
| Search.HitShows | internal/service/index.go:726-729 | A hit is its chunk's key, position and similarity, and its text up to 700 runes, marked when it is cut |
| Search.WithoutKeywords | internal/service/index.go:709-713 | When keyword search fails the hits are the most similar chunks, in order |
| Search.BothSearchesCount | internal/service/index.go:700-718 | Fused are exactly the forty most similar chunks and the keyword matches, in the order of what their places in the two rankings are worth together |
| Rank.FuseRRF | internal/index/rank.go:38-56 | Each ranked id once, by score descending, ties by id |
| Rank.FusedInOrder | internal/index/rank.go:49-54 | One id is before another if and only if its score is greater, or equal and the id smaller |
| Rank.FusionIsUnique | internal/index/rank.go:49-54 | That order is the only one, whatever the map iteration and the sort do |
| Rank.PlaceIsWorth | internal/index/rank.go:32-44 | Place i of a ranking, from 0, is worth 1 / (61 + i) |
| Rank.ScoreOfTwo | internal/index/rank.go:38-44 | A score is the sum of what an id's places in the rankings are worth |
| Rank.DominantComesFirst | internal/index/rank.go:34-37 | An id placed above another in every duplicate-free ranking that has the other comes first |
| Limiter.MemoryLimiter.Allow | internal/upstream/limiter.go:44-83 | The answer and the buckets left are those of the specification, sweep included |
| Limiter.MemoryLimiter.Sweep | internal/upstream/limiter.go:87-97 | Exactly the buckets idle for over ten minutes go |
| Limiter.AnswerIff | internal/upstream/limiter.go:44-83 | Every answer: without a limit granted; a new key granted; any other granted if and only if the tokens in hand, refilled by elapsed time × rate ÷ 60 and capped at the rate, are at least one, and then one is taken |
| Limiter.AllowKeepsSound | internal/upstream/limiter.go:61-82 | Tokens stay between nothing and capacity, whatever rates come |
| Limiter.GrantsWithinBudget | internal/upstream/limiter.go:44-83 | From any call on, grants never exceed that call's capacity plus elapsed time at the rates then in force, even with changing rates and sweeps |
| Limiter.GrantsAtFixedRate | internal/upstream/limiter.go:44-83 | At one rate, from any call to the last: at most rate + (last − first) × rate ÷ 60 grants |
| Limiter.TokensAreWhatIsLeft | internal/upstream/limiter.go:61-82 | At one rate the tokens in hand are exactly what is left of the budget that began at some earlier call |
| Limiter.RefusedOnlyWhenSpent | internal/upstream/limiter.go:78-80 | At one rate a call is refused only when, counted from some earlier call, one more grant would exceed rate + elapsed time × rate ÷ 60 |
| Limiter.BudgetInvariant | internal/upstream/limiter.go:61-82 | Tokens in hand plus grants never exceed that budget |
| Limiter.SweepingIsUnobservable | internal/upstream/limiter.go:53-97 | On every run the sweeping limiter answers exactly as one that never sweeps |
| Limiter.IdleIsFull | internal/upstream/limiter.go:61-73 | Ten idle minutes fill any bucket at any new rate |
| Breaker.CircuitBreaker.Allow | internal/upstream/breaker.go:72-93 | The answer and all entries left are those of the specification, sweep included |
| Breaker.CircuitBreaker.Record | internal/upstream/breaker.go:96-128 | All entries left are those of the specification |
| Breaker.CircuitBreaker.State | internal/upstream/breaker.go:131-142 | Open is reported exactly when Allow would refuse |
| Breaker.CircuitBreaker.Reset | internal/upstream/breaker.go:147-151 | One key's entry is forgotten |
| Breaker.CircuitBreaker.Fetch | internal/upstream/breaker.go:154-162 | An entry is found or created; a sweep may already have dropped it from the map |
| Breaker.CircuitBreaker.Sweep | internal/upstream/breaker.go:169-179 | Exactly the closed entries idle for over an hour go |
| Breaker.SweptIs | internal/upstream/breaker.go:166-179 | Above 4096 keys a sweep keeps exactly the entries that are not closed or were active within the hour; otherwise it keeps all |
| Breaker.FetchedIsBounded | internal/upstream/breaker.go:154-179 | A key has an entry after fetching if and only if it had one or the map was not full |
| Breaker.OverflowIsNeverRefused | internal/upstream/breaker.go:72-179 | While the map stays full, a key without an entry gets none and is never refused, whatever is recorded for it |
| Breaker.MapIsBounded | internal/upstream/breaker.go:154-179 | On every run the map holds at most 4096 keys |
| Breaker.EntryIsItsHistory | internal/upstream/breaker.go:72-179 | An entry depends on its own key's history since it was created, however many keys there are |
| BreakerHistory.HistoryExplains | internal/upstream/breaker.go:72-128 | On every history: closed counts exactly the trailing failures, below threshold; half-open has seen only successes, too few; open dates from the last failure |
| BreakerHistory.RefusesIff | internal/upstream/breaker.go:72-93 | A call is refused exactly when the last outcome was a tripping failure less than OpenDuration ago |
| BreakerHistory.FailureTrips | internal/upstream/breaker.go:120-127 | A failure opens the circuit exactly when it is already tripped or the run reaches the threshold |
| BreakerHistory.HalfOpenAdmitsEveryCall | internal/upstream/breaker.go:90-92 | A half-open circuit admits every call and stays half-open |
| BreakerHistory.SuccessNeverHurts | internal/upstream/breaker.go:104-118 | A success never raises the failure count and never opens a circuit |
| Calls.StepKeepsInv | internal/engine/executor.go:112-188 | Every step of any call keeps each semaphore's count equal to its holders, within capacity, and each call disciplined |
| Calls.CallsAreDisciplined | internal/engine/executor.go:112-188 | In every interleaving an invalid call touches no control; a sent call is recorded exactly once and no other; every slot taken is given back once |
| Calls.InFlightWithinCapacity | internal/upstream/limiter.go:115-140 | Whatever limits change, calls in flight under a semaphore never exceed its capacity |
| Calls.InFlightNeverExceedsLimit | internal/upstream/limiter.go:115-140 | With a fixed positive limit, an instance never has more calls in flight than that |
| Calls.OneSemForever | internal/upstream/limiter.go:129-140 | With a fixed limit there is only ever one semaphore for the instance |
| Calls.ForgottenStartsAnew | internal/upstream/limiter.go:129-147 | Once forgotten, an instance's next limited call waits at a new, empty semaphore of its own limit |
| Calls.ClientErrorNeverTrips | internal/engine/executor.go:179-183 | A response below 500 raises no failure count and opens no circuit |
| Outage.ReplyIsRecorded | internal/engine/executor.go:173-183 | No reply or one of 500 and above adds a failure, and opens a half-open circuit or one at the threshold, at that time; any reply below 500 clears a closed one and takes a half-open one a success further; other keys are untouched |
| Outage.QuestionIsAnswered | internal/upstream/breaker.go:72-93 | A call is shed if and only if its circuit is open and younger than OpenDuration; an older one turns half-open |
| Outage.OutageSheds | internal/engine/executor.go:140-183 | In every interleaving, after threshold failing replies in a row the next call to ask within OpenDuration is shed |
| Outage.BreakerIsItsCalls | internal/engine/executor.go:140-183 | In every interleaving the breaker's entries are those its questions, replies and resets give in that order |
| Outage.ShedIff | internal/engine/executor.go:140-183 | In every interleaving a call is shed if and only if the last outcome for its key is a tripping failure less than OpenDuration ago |
| Throttle.LimiterIsItsAsks | internal/engine/executor.go:133-138 | In every interleaving the limiter's buckets are those its questions give in that order |
| Throttle.CallsWithinBudget | internal/engine/executor.go:133-138 | In every interleaving the calls of an instance let through stay within the rate and the refill at the rates in force |
| Executor.Engine.Execute | internal/engine/executor.go:112-188 | Every exit path is a legal sequence of the steps above that leads to the state the call leaves; each result says which controls were spent |
| Executor.Engine.Transact | internal/engine/executor.go:149-188 | The outcome is recorded once if the client was called, whatever mapping says |
| Executor.Engine.FindSemaphore | internal/upstream/limiter.go:129-140 | The key's semaphore, replaced exactly when the limit is not its capacity |
| Executor.Engine.TakeSlot | internal/upstream/limiter.go:115-127 | A slot of that semaphore, or nothing when the context ends first |
| Executor.Engine.Release | internal/upstream/limiter.go:120-126 | The slot goes back to the semaphore it came from |
| Utf8.AsciiByteIsRune | internal/index/chunk.go:105-112 | Self-synchronisation: a byte below 128 in encoded text is a whole rune (section 3 of RFC 3629) |
| Utf8.LastIndexInRunes | internal/index/chunk.go:105-112 | The last occurrence over bytes, counted in runes, is the last occurrence over runes, for every text |
| Utf8.CountEncoded | internal/index/chunk.go:111 | Decoding what was encoded counts the same runes |
| Text.TrimIff | internal/index/chunk.go:55 | Trimmed of white space, a text is what is left between two stretches of it, empty or visible at both ends |
| Chunk.LastIndexAfterIsLastCut | internal/index/chunk.go:105-112 | The byte search gives the end of the last occurrence of an ASCII separator, or says there is none |
| Chunk.CutIsBest | internal/index/chunk.go:75-97 | A cut is the last occurrence, in the last third, of the best separator present; raw exactly when none is |
| Chunk.CutLength | internal/index/chunk.go:80-97 | A window that is not the last has at most size and more than two thirds of size runes |
| Chunk.ChunkSize | internal/index/chunk.go:34-69 | The loop ends for all arguments and yields the spans of the windows |
| Chunk.UnusableArguments | internal/index/chunk.go:34-46 | A size that is not positive stands for 1000, an overlap that is negative or not below the size for 0 |
| Chunk.WindowsTile | internal/index/chunk.go:47-69 | Windows leave no gap, and consecutive ones overlap by exactly overlap whenever it is less than the shortest window |
| Chunk.WindowHolding | internal/index/chunk.go:47-69 | Every rune is in some window |
| Chunk.SpanIsStretch | internal/index/chunk.go:54-57 | Each span is a stretch of the text inside its offsets, at most size runes, numbered by position |
| Chunk.SpansShow | internal/index/chunk.go:34-69 | Every visible rune is in some span, at its own place |
| Chunk.ShortTextIsNeverCut | internal/service/index.go:514-517 | A text of at most 104,082 runes never reaches the 200-chunk limit |
| Chunk.LongerTextMayBeCut | internal/service/index.go:514-517 | That bound is exact: some text one rune longer is cut |
| Heading.ParseHeading | internal/index/heading.go:37-50 | The result is a heading of a level and a title if and only if the line is that many markers and no more, a space, and a rest that trims to that title, not empty |
| Heading.FenceIff | internal/index/heading.go:57-60 | A line is a fence exactly when three backticks or three tildes follow its leading white space |
| Heading.HeadingAtIff | internal/index/heading.go:107-114 | A line of a text is a heading exactly when it reads as one, is no fence, and an even number of fences come before it |
| Heading.LineShape | internal/index/heading.go:86 | Every line but the last ends in its only newline, and the last has none |
| Heading.EnclosingStep | internal/index/heading.go:113-123 | A new heading closes those of its own or a deeper level, and only those |
| Heading.EnclosingLevels | internal/index/heading.go:117-120 | Levels strictly increase along the stack |
| Heading.PopTo | internal/index/heading.go:117-119 | Popping leaves exactly the headings still open |
| Heading.SplitSections | internal/index/heading.go:80-132 | The loop's sections are those of the specification, whose breadcrumbs are defined by the headings alone |
| Heading.LineHasSection | internal/index/heading.go:80-132 | A line that is not a heading is in a section with that line's breadcrumb |
| Heading.HeadingLineOutside | internal/index/heading.go:107-126 | A heading line is in no section |
| Heading.SectionsTile | internal/index/heading.go:80-132 | Lines tile the text; sections are ordered and disjoint and hold exactly the lines that are not headings; each breadcrumb is exactly the headings with no later one of the same or a lower level |
| Heading.SectionCrumb | internal/index/heading.go:94-105 | A section holds no heading line and carries the breadcrumb of every line it holds |
| Heading.NestedHeadings | internal/index/heading.go:94-123 | Under a heading and a deeper one a body's breadcrumb is both titles in order; under one that is not deeper, its title alone |
| Heading.SectionHoldsLine | internal/index/heading.go:94-97 | Every section holds a line |
| Heading.NoSectionsIff | internal/index/heading.go:128-131 | There are no sections exactly without a dialect, without headings, or with nothing but headings |
| ChunkHeading.ChunkByHeading | internal/index/heading.go:147-181 | The loops yield the spans of the sections' pieces |
| ChunkHeading.HeadingSpanIsSound | internal/index/heading.go:147-188 | Spans are numbered 0, 1, 2, ..., have the offsets of a section, and hold 1 to 1000 consecutive runes of it after that section's own breadcrumb |
| ChunkHeading.HeadingLinesAlone | internal/index/heading.go:147-151 | A text of heading lines alone is split by size |
| ChunkHeading.NestedHeadingsAreStored | internal/index/heading.go:147-188 | The same, as the one span that is made of it |
| ChunkHeading.OneSectionIsStored | internal/index/heading.go:160-165 | A section of at most 1000 runes is one span: breadcrumb, blank line, trimmed body |
| ChunkHeading.HeadingSpansCover | internal/index/heading.go:147-181 | Every visible rune outside heading lines is in some span, under its own breadcrumb |
| Template.ParsePlaceholder | internal/tmpl/tmpl.go:116-150 | The filter loop gives the meaning of the body: later defaults replace earlier ones |
| Template.Parse | internal/tmpl/tmpl.go:79-105 | The loop gives the parts, or the first error, of the source |
| TemplateGrammar.PlaceholderIff | internal/tmpl/tmpl.go:116-150 | A body is the placeholder of a reference and a default if and only if what stands between its bars says so: the reference written out, then filters that each set the default, the last one counting |
| TemplateGrammar.NamesIff | internal/tmpl/tmpl.go:118-139 | A lookup is accepted as a reference if and only if it is input, vars or secrets, a dot, and identifiers joined by dots |
| TemplateGrammar.IdentifierIff | internal/tmpl/tmpl.go:164-179 | An identifier is a letter or underscore, then letters, digits, underscores and hyphens |
| TemplateGrammar.DenotesIff | internal/tmpl/tmpl.go:152-162 | A default loses one pair of single quotes, or of double quotes with its escapes resolved, left as they are when malformed |
| TemplateGrammar.SplitIsCut | internal/tmpl/tmpl.go:117-132 | What splitting yields joins back and holds no separator, so a body is cut at its bars in one way |
| TemplateGrammar.EveryBodyIsCut | internal/tmpl/tmpl.go:117 | Every body is cut at its bars, so the grammar decides every body |
| TemplateRoundTrip.PrintParses | internal/tmpl/tmpl.go:79-150 | Printing canonical parts and parsing the text gives back the parts |
| TemplateRoundTrip.AcceptedSourceIsItsPieces | internal/tmpl/tmpl.go:79-105 | For any accepted source the literals and bracketed bodies in order concatenate back to it, each part standing for its piece |
| TemplateRoundTrip.SplitJoin | internal/tmpl/tmpl.go:132-137 | Splitting a joined path gives back its elements |
| TemplateRender.LookupNested | internal/tmpl/tmpl.go:354-367 | The walk ends at the nested value, or nowhere |
| TemplateRender.Render | internal/tmpl/tmpl.go:225-247 | The builder loop gives the text, or the reason there is none |
| TemplateMeaning.RendersIff | internal/tmpl/tmpl.go:225-247 | A template renders to a text if and only if the text is one contribution per part in order: a literal itself, a placeholder the escaped text of the value that stands in |
| TemplateMeaning.LookupIff | internal/tmpl/tmpl.go:325-367 | A scope supplies a value exactly when the path walks to it in the input, or is one name of a variable or secret |
| TemplateMeaning.NoTextIff | internal/tmpl/tmpl.go:236-243 | A placeholder is unresolved exactly when nothing is supplied and there is no default, and fails exactly when what is supplied is composite |
| TemplateMeaning.TypedIff | internal/tmpl/tmpl.go:249-266 | The typed value of a lone placeholder is the value that stands in, the default's own text being read as the most specific scalar |
| TemplateMeaning.OtherTypedIff | internal/tmpl/tmpl.go:267-268 | Any other template is typed as the text it renders to, unescaped |
| TemplateRender.AllOrNothing | internal/tmpl/tmpl.go:218-247 | Text comes out exactly when every part has some; otherwise nothing does, and the first part without says why |
| TemplateRender.ReadsOnlyItsRefs | internal/tmpl/tmpl.go:195-205 | Scopes that agree on a template's references render it alike |
| TemplateRender.SecretsStayOut | internal/tmpl/tmpl.go:207-216 | A template that reports no secrets renders the same whatever the secrets are |
| TemplateRender.ValuesAddNoDelimiter | internal/tmpl/tmpl.go:218-245 | A character the escaper never writes occurs in the output exactly as often as in the literals |
| TemplateRender.StaticRendersSource | internal/tmpl/tmpl.go:184-193 | A template without placeholders renders to its own source in any scope |
| TemplateRender.AcceptedRefsAreWellFormed | internal/tmpl/tmpl.go:116-138 | Every reference of an accepted source has a known namespace and a non-empty path of identifiers |
| TemplateRender.PresentValueKeptIff | internal/tmpl/tmpl.go:253-269 | A present value keeps its type if and only if it is not the default's own text read as another scalar |
| TemplateRender.StringBecomesNumber | internal/tmpl/tmpl.go:260-264 | The string "7" under default:7 comes out as a number |
| TemplateRender.TypedAgreesWithText | internal/tmpl/tmpl.go:225-269 | Typed and textual rendering of one placeholder miss together and otherwise agree |
| Usage.Store.Prune | internal/usage/usage.go:324-386 | Under every failure only a prefix of the rows in text order is gone; without one the size is within the cap or no row is left |
| Usage.Store.DeleteOldest | internal/usage/usage.go:445-452 | Exactly n rows go, none later in text order than one that stays |
| Usage.Store.Estimate | internal/usage/usage.go:354-367 | The least number of rows whose average size exceeds the overage, or fewer when that is over 500 or more than there are |
| Usage.OvershootIff | internal/usage/usage.go:343-384 | When rows cost the same, a run deletes exactly the least number that suffices, plus one if and only if that number is neither all rows nor whole batches, meets the cap exactly, and the last pass finds more rows than fixed bytes |
| Usage.OneRowTooMany | internal/usage/usage.go:343-384 | An example: one row deleted more than the cap asks for |
| Usage.OvershootAtMostOne | internal/usage/usage.go:354-367 | Hence never more than one row too many |
| Usage.HopelessCapDeletesAll | internal/usage/usage.go:343-352 | When an empty log is over the cap, a run deletes every row |
| Timestamps.SameSecondOrderIff | internal/usage/usage.go:454-456 | Within a second text order is time order unless the earlier fraction is a prefix of the later |
| Timestamps.SecondsDecide | internal/usage/usage.go:454-456 | Between different seconds text order is that of the seconds |
| Timestamps.WholeSecondSortsLast | internal/usage/usage.go:454-456 | A whole second is stored without a fraction and sorts after every later moment of that second |

## Left out

- UpdateIsRebuild.UpdateMatchesRebuildIff: compares document rows, hashes and chunk contents, not chunk row ids or the created_at and updated_at columns.
- Gitea.PruningIsSafe: supposes that a tree the server does not flag as truncated is complete, and that the upstream does not change during the crawl.
- Library.PruningSafeIff: supposes a stable listing that names each item once.
- TemplateRoundTrip.PrintParses: the side conditions on literals and defaults are shown to suffice, not to be necessary.
- Search.Search: similarity and the keyword ranking are given; of the orders the unstable sort may give to equally similar chunks, the model has one.
- Usage.OvershootIff: assumes complete reclaims and equal rows; for other file sizes only termination, the prefix and the stopping condition are proved.
- Breaker.MapIsBounded: the clock is later than one hour after Go's zero time, as any real clock is.
- Floating point: tokens, scores and similarities are reals, and a stored vector is a sequence of bit patterns; `Cosine` is not modelled.
- Integer width: counts, sizes and offsets are unbounded.
- Resolving the instance, its settings and the required tools before a run is one yes-or-no answer; so is validating a call's arguments, building its request and mapping its response.
- Context deadlines appear only as the wait for a slot being cancelled and as failing calls.
- SQLite is a set of tables and transactions that are let through or not; full-text matching, `sanitizeFTSQuery`, `LoadAll` and `CountChunks` are not modelled.
- JSON decoding of upstream responses, HTML stripping, base64, `strconv.Unquote`, number formatting and `json.Unmarshal` are parameters or already decoded data.
- Appends to the usage log while it is being pruned, and the vacuum loop of `reclaim`.
- HTTP transport, egress policy, redirects, keyring, sessions, web interface, audit and manifest compilation.
- `collectProblems` and the error messages: only which error it is.
