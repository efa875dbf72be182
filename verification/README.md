# Helperium: a verified model of its hard parts

This project models, in Dafny 4.11, the parts of the Helperium services whose correctness depends on
a loop, a run or a round trip, and proves what those parts are for. Verify it with
`dafny verify dfyconfig.toml --resource-limit 2000000 --verification-time-limit 0`.

Each component has its specification as functions on values, its program as methods with the source's
loops and updates proved equal to those functions, and its results as lemmas about the functions.

- **Rate limiter** of the MCP gateway (`TokenBucket`, `RateLimiter`, `RateLimiterRuns`,
  `RateLimiterInterleavings`): a bucket of two numbers decides every request as the full request log would,
  and the bounded map of buckets is an LRU set, over every run of whole calls and in every interleaving of
  their two critical sections. Bucket objects are shared and updated in place, as in the source.
- **Tenant scopes and their handler cache** (`TenantScope`, `ScopeRegistry`, `ScopeRegistryRuns`,
  `ScopeRegistryAdmission`): the cache as a state machine whose steps are the two critical sections and the
  loads between them, over every interleaving with a non-decreasing clock: what is kept, and who is refused.
- **Documents in two stores** (`VectorStore`, `DocumentStore`, `DocumentStoreRuns`, `DocumentEffects`): imports,
  re-imports, deletions and re-embedding over SQL with transactions and a vector collection without, every
  vector call and every commit free to fail, vector calls also part way.
- **Chunkers** (`RecursiveChunker`, `RecursiveChunkerLaws`, `RecursiveChunkerBoundaries`, `SentenceSplitter`,
  `SentenceChunker`): size bounds, conservation of text and whole words through all levels of recursion,
  where texts are cut, splitting and joining of sentences, and optimality of greedy packing.
- **PDF writer** (`Decimal`, `PdfText`, `PdfFile`, `PdfDocument`): a writer and a reader that undo each other,
  from lines to bytes and back, by way of the cross-reference table and the trailer (sections 7.5.4 and
  7.5.5 of ISO 32000-1), the page tree and the UTF-16 text streams.
- **Audit log** (`LogReader`, `AuditLog`): the backward block reader against the list of lines, and what
  Recent returns after any run.
- **Tool-loop detection** (`ToolLoops`), **variable substitution** (`Envsubst`, `EnvsubstForms`) and **BM25
  ranking** (`Bm25`, `Bm25Ranking`).

`Text`, `Stretches` and `Wrappers` hold what several of them share. Foreign code appears as a parameter (the
marshaller, the logarithm, the environment), as an outcome of a call (works, or fails after part of its
effect) or as an identity (handlers, uuids). Map iteration order is a parameter wherever Go leaves it open.

## Where the code does less than it says

The model follows the code. Where a comment or an evident promise asks for more, a lemma gives the exact
condition under which it holds, and another gives an input or a run for which it does not.

- `evictOldest` cannot evict the empty address. The map stays within its bound exactly over sets of addresses
  that do not hold the empty one or are no larger than the bound
  (`RateLimiterRuns.BoundedIff`, run: `RateLimiterRuns.EmptyAddressBreaksBound`).
- `evictIdleScopes` reports "at least one slot was freed" also when it only dropped the timestamp of a
  failed load (`ScopeRegistry.SweepFreesSlotIff`, table: `ScopeRegistry.SweepReportsWithoutFreeing`); the second capacity check keeps the bound.
- Scopes accessed within the TTL are said never to be evicted. A request that had to load is served after its
  access was recorded, so its scope can go up to the load time too early
  (`ScopeRegistryRuns.ActiveNeverEvictedIff`, run: `ScopeRegistryRuns.EvictedWhileActive`).
- A manifest load that outlasts the TTL can publish a handler without a recorded access, which no sweep
  removes (`ScopeRegistryRuns.AlwaysTrackedIff`, run: `ScopeRegistryRuns.SlowLoadRun`).
- A failed re-import rolls SQL back but not the vectors it deleted first
  (`DocumentStoreRuns.FailedImportInStepIff`, run: `DocumentStoreRuns.FailedReimport`).
- A deletion whose commit failed stays pending on the connection, and the next successful import of another
  document commits it along (`DocumentStoreRuns.ImportReplacesIff`, run:
  `DocumentStoreRuns.PendingDeletionCommitted`).
- A rebuild that fails after the old collection was dropped is not retried: the next check finds the new label,
  or none, and passes (`VectorStore.RetryRestoresIff`, run: `VectorStore.RebuildLost`).
- The sentence packer does not count the spaces it joins with, so a chunk of several sentences can be half as
  long again as chunk_size, and no longer (`SentenceChunker.AllChunksFitIff`, `SentenceChunker.ChunkLength`,
  texts: `SentenceChunker.ChunkLengthIsTight`).
- `Recent` says that no deduplication is needed; past a buffer that is not empty it always repeats the newest
  entry, and after a restart it answers newest first instead of oldest first (`AuditLog.RecentIsEndOfLogIff`,
  run: `AuditLog.SecondOfTwoTwice`). A line on a block boundary is read twice (`LogReader.EachLineOnceIff`,
  `AuditLog.FileGivesLogReversedIff`, file: `AuditLog.BoundaryEntryTwice`).
- The tool-loop detector compares by one name field and reports by the other, and the same of the arguments
  (`ToolLoops.ReportedNameIff`, `ToolLoops.ReportedArgsIff`, records: `ToolLoops.LoopReportedUnderOtherName`,
  `ToolLoops.LoopReportedWithOtherArgs`).
- Substitution of two texts in a row differs from substituting them together when a dollar sign meets an
  opening brace (`Envsubst.ConcatenationIff`, texts: `Envsubst.SeamMatters`).
- The BM25 constructor accepts parameters for which a score divides by zero (`Bm25.ComputesIff`, parameters:
  `Bm25.MinusOneDivides`).

## Model

| member | source | states |
|---|---|---|
| `TokenBucket.IpBucket.constructor` | services/mcp-gateway/cmd/ratelimit.go:106-109 | A new bucket is full and starts at the given clock reading. |
| `TokenBucket.IpBucket.TakeToken` | services/mcp-gateway/cmd/ratelimit.go:115-132 | The critical section of one request: refill, cap, consume; new state and decision together are the specification step `Take`. |
| `TokenBucket.TimesIsProduct` | services/mcp-gateway/cmd/ratelimit.go:123 | The repeated addition that the specification refills with is the product of rate and elapsed time in the code. |
| `TokenBucket.RefillIsLeastSlack` | services/mcp-gateway/cmd/ratelimit.go:122-126 | Refilling and capping gives the least of the burst and of what every logged request has left of its allowance: two numbers summarise the whole log. |
| `TokenBucket.TakeDecidesAsLog` | services/mcp-gateway/cmd/ratelimit.go:115-132 | One request: the two-number bucket decides as the sliding-window rule over the full request log, and goes on standing for the extended log. |
| `TokenBucket.BucketDecidesAsFullLog` | services/mcp-gateway/cmd/ratelimit.go:99-133 | For every sequence of requests to one bucket, request j is admitted if and only if the full-log rule admits it. |
| `TokenBucket.WindowBound` | services/mcp-gateway/cmd/ratelimit.go:99-133 | Any window of requests admits at most burst + rps times its length. |
| `TokenBucket.TokensNonNegative` | services/mcp-gateway/cmd/ratelimit.go:118-131 | A bucket never owes tokens, and remembers the last request time. |
| `TokenBucket.SpacedRequestAdmitted` | services/mcp-gateway/cmd/ratelimit.go:118-131 | A request that comes at least 1/rps after its predecessor is never refused, whatever came before. |
| `TokenBucket.RuleLogIsReplay` | services/mcp-gateway/cmd/ratelimit.go:99-133 | The full-log rule leaves no choice: a log decided by it is the one a bucket produces for the same times. |
| `RateLimiter.NewLimiter` | services/mcp-gateway/cmd/ratelimit.go:53-73 | Positive settings are kept, the others replaced by 10 requests a second, a burst of 20 and 10000 buckets; both maps start empty. |
| `RateLimiter.IpRateLimiter.constructor` | services/mcp-gateway/cmd/ratelimit.go:56-73 | The constructed object is the specified limiter. |
| `RateLimiter.IpRateLimiter.FindOldest` | services/mcp-gateway/cmd/ratelimit.go:81-88 | The scan loop over lastSeen, in any order, computes the specified scan. |
| `RateLimiter.IpRateLimiter.Evict` | services/mcp-gateway/cmd/ratelimit.go:77-95 | Eviction removes the scanned address from both maps and reports whether it did; the remaining bucket objects are untouched. |
| `RateLimiter.IpRateLimiter.FindBucket` | services/mcp-gateway/cmd/ratelimit.go:100-113 | The critical section under the limiter mutex finds or creates the bucket object, evicting when full; all other bucket objects stay the same objects. |
| `RateLimiter.IpRateLimiter.AllowRequest` | services/mcp-gateway/cmd/ratelimit.go:99-133 | A whole call of Allow on the shared objects is the specified step. |
| `RateLimiterRuns.EvictsLeastRecentIffNonEmpty` | services/mcp-gateway/cmd/ratelimit.go:75-95 | With distinct timestamps evictOldest removes the least recently seen address if and only if that address is not the empty string (which doubles as "none yet"). |
| `RateLimiterRuns.MapsBoundedAndInStep` | services/mcp-gateway/cmd/ratelimit.go:99-113 | Over every run without empty addresses both maps have the same keys and never more than maxBuckets. |
| `RateLimiterRuns.EmptyAddressBreaksBound` | services/mcp-gateway/cmd/ratelimit.go:83-91 | For any bound, a run with a moving clock in which the empty address comes first, cannot be evicted, and the map outgrows maxBuckets. |
| `RateLimiterRuns.BoundedIff` | services/mcp-gateway/cmd/ratelimit.go:75-113 | The map stays within maxBuckets on every run over a set of addresses if and only if the empty address is not in the set or the set is no larger than maxBuckets. |
| `RateLimiterRuns.SeenInRecencyOrder` | services/mcp-gateway/cmd/ratelimit.go:99-113 | The recorded timestamps order the resident addresses as the request trace does. |
| `RateLimiterRuns.ResidentsAreMostRecent` | services/mcp-gateway/cmd/ratelimit.go:25-35 | Bounded map refines LRU: after every run the keys are exactly the maxBuckets most recently requested distinct addresses. |
| `RateLimiterRuns.BucketsStandForLogs` | services/mcp-gateway/cmd/ratelimit.go:99-133 | After every run in which no bucket is used at an earlier time than it was made, each resident bucket stands for the full log of its address since it last became resident. |
| `RateLimiterRuns.EveryDecisionIsTheLogRule` | services/mcp-gateway/cmd/ratelimit.go:97-133 | Every decision of every such run is the full-log rule for that address since it last became resident, whatever else the clock does. |
| `RateLimiterInterleavings.FindIsLookup` | services/mcp-gateway/cmd/ratelimit.go:100-113 | The first critical section is the lookup of the sequential limiter, whatever calls are between their two sections. |
| `RateLimiterInterleavings.BucketsStand` | services/mcp-gateway/cmd/ratelimit.go:99-133 | In every interleaving every bucket object, evicted or not, stands for the full log of its own requests, and no reference dangles. |
| `RateLimiterInterleavings.EveryDecisionIsTheLogRule` | services/mcp-gateway/cmd/ratelimit.go:97-133 | In every interleaving a call is admitted exactly when the full-log rule of the bucket it holds admits it. |
| `RateLimiterInterleavings.EveryWindowBounded` | services/mcp-gateway/cmd/ratelimit.go:97-133 | In every interleaving any window of the requests to a bucket, evicted or not, admits at most burst + rps times its length. |
| `RateLimiterInterleavings.EverySpacedCallAdmitted` | services/mcp-gateway/cmd/ratelimit.go:97-133 | In every interleaving a request that comes at least 1/rps after the one before it on its bucket is admitted. |
| `RateLimiterInterleavings.ResidentsAreMostRecent` | services/mcp-gateway/cmd/ratelimit.go:25-35 | In every interleaving the maps stay in step, bounded, and name exactly the most recent distinct addresses in the order calls passed the limiter mutex. |
| `TenantScope.ResolveTenantIDs` | services/mcp-gateway/cmd/main.go:657-669 | The loop computes the specified list: comma-separated parts, trimmed, empty ones dropped. |
| `TenantScope.ResolveAtComma` | services/mcp-gateway/cmd/main.go:657-669 | Whatever is on the two sides of a comma is read apart, the one after the other. |
| `TenantScope.ResolvePart` | services/mcp-gateway/cmd/main.go:657-669 | A header without a comma is one ID without the white space around it, or none if nothing else is there. |
| `TenantScope.ValidateTenantScope` | services/mcp-gateway/cmd/main.go:427-447 | Accepts exactly the bounded lists of valid, pairwise different tenant IDs, and otherwise reports the first fault in order. |
| `TenantScope.SplitJoin` | services/mcp-gateway/cmd/main.go:660 | Splitting a comma join of comma-free parts gives the parts back. |
| `TenantScope.ResolveInvertsJoin` | services/mcp-gateway/cmd/main.go:657-669 | Resolving the joined form of valid IDs gives the list back. |
| `TenantScope.JoinInjective` | services/mcp-gateway/cmd/main.go:144-145 | On validated scopes the registry key determines the tenant list, order included. |
| `TenantScope.UnvalidatedJoinCollides` | services/helperium-go/config/tenant.go:7-22 | Without the tenant-ID alphabet two different lists share a key. |
| `ScopeRegistry.StreamableTenantRegistry.constructor` | services/mcp-gateway/cmd/main.go:107-113 | A new registry has no handlers and no recorded accesses. |
| `ScopeRegistry.StreamableTenantRegistry.EvictIdleScopes` | services/mcp-gateway/cmd/main.go:129-142 | The deleting loop, in any order, removes exactly the stale keys and reports whether there was one. |
| `ScopeRegistry.StreamableTenantRegistry.ReserveScope` | services/mcp-gateway/cmd/main.go:149-164 | The first critical section of handlerFor: hit, refusal, or reservation by timestamp. |
| `ScopeRegistry.StreamableTenantRegistry.PublishScope` | services/mcp-gateway/cmd/main.go:185-194 | The second critical section: reuse the canonical handler, refuse when full, or publish. |
| `ScopeRegistry.SweepFreesSlotIff` | services/mcp-gateway/cmd/main.go:125-142 | The documented result, that a slot was freed, holds if and only if a cached handler has a stale entry. |
| `ScopeRegistry.SweepReportsWithoutFreeing` | services/mcp-gateway/cmd/main.go:134-141 | A table for which the sweep reports success without freeing a handler slot. |
| `ScopeRegistryRuns.EveryInterleavingSafe` | services/mcp-gateway/cmd/main.go:144-195 | In every interleaving at most max handlers are cached, each under the key of its own tenants, and nobody is served by a handler built for another tenant list. |
| `ScopeRegistryRuns.OnlyIdleScopesEvicted` | services/mcp-gateway/cmd/main.go:125-164 | Whenever a handler is cached at one point of a run and not at a later one, it left in between in the sweep of a request that found no room, its recorded access being older than the TTL. |
| `ScopeRegistryRuns.ServedStays` | services/mcp-gateway/cmd/main.go:149-195 | In every interleaving a scope that served a request stays cached until more than the TTL has passed since that request arrived. |
| `ScopeRegistryRuns.EvictedWhileActive` | services/mcp-gateway/cmd/main.go:185-194 | For any load time up to the TTL, a run in which a scope is evicted less than the TTL after it served a request. |
| `ScopeRegistryRuns.ActiveNeverEvictedIff` | services/mcp-gateway/cmd/main.go:125-128 | Scopes that served a request within the TTL are never evicted, in any interleaving, if and only if idle eviction is off or loads take no time. |
| `ScopeRegistryRuns.CachedHandlerStable` | services/mcp-gateway/cmd/main.go:183-194 | While a key stays cached its handler never changes: duplicate builds are discarded. |
| `ScopeRegistryRuns.ServedHandlerIsCached` | services/mcp-gateway/cmd/main.go:150-153 | Every served handler is the one in the map for the request's key at its last critical section. |
| `ScopeRegistryRuns.DifferentHandlersMeanEviction` | services/mcp-gateway/cmd/main.go:183-194 | Two requests for one key get different handlers only if the key was evicted in between. |
| `ScopeRegistryRuns.ShortLoadsTracked` | services/mcp-gateway/cmd/main.go:163-194 | When no load outlasts the TTL, every cached handler has a recorded access in every interleaving. |
| `ScopeRegistryRuns.SlowLoadRun` | services/mcp-gateway/cmd/main.go:163-194 | A run in which a load that outlasts the TTL publishes a handler without a recorded access. |
| `ScopeRegistryRuns.AlwaysTrackedIff` | services/mcp-gateway/cmd/main.go:129-195 | No cached scope is ever without a recorded access if and only if idle eviction is off or loads are no longer than the TTL. |
| `ScopeRegistryAdmission.ArrivalIff` | services/mcp-gateway/cmd/main.go:148-164 | An arriving request is served at once if and only if its scope is cached, refused if and only if it is not, the cache is full and nothing is idle (or idle eviction is off), and goes to load otherwise. |
| `ScopeRegistryAdmission.CompletionIff` | services/mcp-gateway/cmd/main.go:185-194 | A finished load is served by the cached handler; otherwise it is refused if and only if the cache is full, and admitted, beside everything cached, if there is room. |
| `ScopeRegistryAdmission.RefusedOnlyWhenFull` | services/mcp-gateway/cmd/main.go:148-194 | In every interleaving a request that is refused finds exactly max other scopes cached and, if it is arriving, nothing idle. |
| `ScopeRegistryAdmission.AdmittedWithRoom` | services/mcp-gateway/cmd/main.go:185-194 | In every interleaving a load that finishes while there is room leaves exactly the old handlers and its own, built for its own tenants, and is served by it. |
| `ScopeRegistryAdmission.HandlersNeverShared` | services/mcp-gateway/cmd/main.go:172-194 | In every interleaving different scopes are cached with different handlers. |
| `ScopeRegistryAdmission.OneTooMany` | services/mcp-gateway/cmd/main.go:144-195 | For any set of more scopes than may be cached, a run of requests for them in which somebody is refused. |
| `ScopeRegistryAdmission.NeverRefusesIff` | services/mcp-gateway/cmd/main.go:144-195 | Whatever the TTL and the interleaving, requests for a set of scopes are never refused if and only if there are no more of them than may be cached. |
| `VectorStore.ChromaStore.StoreBatches` | services/rag/vector_store/chroma.py:61-88 | The batch loop adds the entries batch by batch and stops at the first call that fails, part of which may have taken effect. |
| `VectorStore.ChromaStore.AddChunks` | services/rag/vector_store/chroma.py:37-88 | Adding chunks: nothing for an empty list, the model label on first use, then the batches. |
| `VectorStore.ChromaStore.DeleteByDocumentId` | services/rag/vector_store/chroma.py:90-92 | Deletes the vectors of a document; a failing call deletes some of them. |
| `VectorStore.ChromaStore.DeleteByIds` | services/rag/vector_store/chroma.py:94-97 | Deletes by chunk id; no call is made for an empty list. |
| `VectorStore.ChromaStore.EnsureEmbeddingConsistency` | services/rag/vector_store/chroma.py:156-233 | Rebuilds the collection when the model changed, what is left wherever the rebuild stops, and the result: True exactly of a rebuild carried through. |
| `VectorStore.AddBatchesExtends` | services/rag/vector_store/chroma.py:61-88 | However the calls go, adding new ids only ever adds entries that were asked for, and adds all of them when it succeeds. |
| `VectorStore.NoFaultsAddAll` | services/rag/vector_store/chroma.py:61-88 | Without failing calls the batches succeed. |
| `VectorStore.BatchesStop` | services/rag/vector_store/chroma.py:201-228 | The batches before the first failing call are stored, and of its own batch exactly what that call reached. |
| `VectorStore.RetryRestoresIff` | services/rag/vector_store/chroma.py:156-233 | Opening again after a failed rebuild restores the vectors if and only if the failing call came before the old collection was dropped, or was that of the last batch and stored all of it. |
| `VectorStore.RebuildLost` | services/rag/vector_store/chroma.py:156-233 | A rebuild whose store call fails leaves no vector, and opening again reports success without storing any. |
| `VectorStore.AddingLabels` | services/rag/vector_store/chroma.py:51-57 | Adding never changes a label; an unlabelled collection is labelled before anything is stored in it, or stays as it is. |
| `VectorStore.OpeningLabels` | services/rag/vector_store/chroma.py:160-177 | A check that succeeds ends with the label of the model, except that a collection of another model with nothing to embed is left alone; where no rebuild is due no vector changes. |
| `DocumentStore.DocumentRepository.constructor` | services/rag/pipeline/repository.py:48-57 | A repository starts with nothing committed and nothing pending. |
| `DocumentStore.DocumentRepository.InsertChunkRows` | services/rag/pipeline/repository.py:361-406 | The chunk loop inserts one row a chunk, numbered from 0, and collects matching entries for the vector store. |
| `DocumentStore.DocumentRepository.ForgetDocument` | services/rag/pipeline/repository.py:261-269 | Old vectors are deleted, a failure being ignored, and then the rows. |
| `DocumentStore.DocumentRepository.SaveDocumentWithChunks` | services/rag/pipeline/repository.py:243-339 | Delete the old document, insert the new one, add its vectors and commit, or roll back and clean up. |
| `DocumentStore.DocumentRepository.ImportDocument` | services/rag/pipeline/pipeline.py:52-92 | An import without chunks fails before touching either store; otherwise it saves. |
| `DocumentStore.DocumentRepository.RemoveDocument` | services/rag/service.py:395-422 | Deletes vectors (a failure is only logged) and then rows; deleting what is not there succeeds. |
| `DocumentStore.DocumentRepository.OpenPipeline` | services/rag/__init__.py:90-92 | Opening the pipeline hands all joined chunks to the consistency check and learns whether it rebuilt. |
| `DocumentStore.FindByPath` | services/rag/pipeline/repository.py:125-132 | Finds the document at a path if there is one. |
| `DocumentStoreRuns.InsertedChunks` | services/rag/pipeline/repository.py:373-403 | Chunk i of an imported document is the i-th new id and no other row changes its place. |
| `DocumentStoreRuns.RunInvariant` | services/rag/pipeline/repository.py:243-357 | Over every run from empty stores the invariant holds, so neither a primary key nor the path constraint can be hit. |
| `DocumentStoreRuns.EveryVectorAccounted` | services/rag/pipeline/repository.py:260-326 | Whatever fails, each vector is that of a committed chunk at the same document, position and path, or one whose delete call failed. |
| `DocumentStoreRuns.EveryCommittedStateSound` | services/rag/documents_schema.py:7-30 | Every reachable committed state has one document per path, no stray chunk, and chunks numbered from 0 without gaps. |
| `DocumentStoreRuns.ImportAllOrNothing` | services/rag/pipeline/repository.py:260-339 | A failed import commits nothing and gives up what was pending; a successful one commits the working state with the document at the path replaced, title, chunk texts, pages and numbers included, and all other rows as they were. |
| `DocumentStoreRuns.ImportReplacesIff` | services/rag/pipeline/repository.py:260-326 | Against what was committed before, a successful import replaces the document at its path and nothing else if and only if no row of another document was pending deletion. |
| `DocumentStoreRuns.PendingDeletionCommitted` | services/rag/pipeline/repository.py:352-357 | A run in which a deletion answered with an error is committed by the next import, of another document. |
| `DocumentStoreRuns.RebuiltExtends` | services/rag/vector_store/chroma.py:171-233 | When a rebuild is due, only a failure before the drop leaves the collection as it was; otherwise it holds nothing but vectors of listed chunks, and all of them under the new label when the rebuild succeeds. When none is due no vector changes. |
| `DocumentStoreRuns.EveryCollectionLabelled` | services/rag/vector_store/chroma.py:51-57 | Over every run, whatever fails, a collection that holds vectors carries a model label. |
| `DocumentStoreRuns.FaultlessRunsInStep` | services/rag/pipeline/repository.py:243-357 | Over every run without failing calls the vector ids are exactly the SQL chunk ids. |
| `DocumentStoreRuns.FailedImportInStepIff` | services/rag/pipeline/repository.py:261-326 | After a failed import whose delete calls worked, stores that were in step still are if and only if no chunk belonged to a document at that path. |
| `DocumentStoreRuns.FailedReimport` | services/rag/pipeline/repository.py:261-326 | A run in which importing a document again fails at the vector store: its chunk is still committed, its vector gone. |
| `DocumentEffects.DeletionRemovesNamed` | services/rag/service.py:395-422 | A deletion that names a document, by its path or, the path being empty, by its id, takes away its row, its chunks and its vectors (of these all that the call reaches) and nothing else; it fails if and only if the commit does, and then what is committed stays. |
| `DocumentEffects.DeletionIdleIff` | services/rag/pipeline/repository.py:134-157 | A deletion changes nothing and succeeds if and only if it names no document there is: a path that is not found does not fall back to the id. |
| `DocumentEffects.DeletedFromRun` | services/rag/service.py:395-422 | In any run a deletion that succeeds leaves neither row nor chunk of the document it names committed and, if the vector call works, none of its vectors. |
| `DocumentEffects.ImportStoresVectors` | services/rag/pipeline/repository.py:243-339 | An import during which nothing fails succeeds if and only if it has chunks; one that succeeds has stored a vector for each chunk under its document, path and number. |
| `DocumentEffects.ImportKeepsOthers` | services/rag/pipeline/repository.py:260-326 | Whatever fails, an import leaves the vectors of other documents as they were. |
| `DocumentEffects.OpeningRebuilds` | services/rag/vector_store/chroma.py:156-233 | Opening touches no row. When the label is another model's and some chunk belongs to a document, success means that the collection holds exactly the vectors of those chunks under the new label; otherwise no vector changes. |
| `RecursiveChunker.PickSeparator` | services/rag/chunker/recursive.py:26-34 | The loop picks the first separator that is empty or occurs in the text. |
| `RecursiveChunker.HardSlice` | services/rag/chunker/recursive.py:62-66 | The slicing loop of the fallback. |
| `RecursiveChunker.ApplyOverlap` | services/rag/chunker/recursive.py:82-93 | The overlap loop puts the end of the previous chunk in front where it fits. |
| `RecursiveChunker.MergePieces` | services/rag/chunker/recursive.py:39-74 | The merging loop with its recursive calls. |
| `RecursiveChunker.SplitRecursive` | services/rag/chunker/recursive.py:19-80 | The recursive method computes the specified split and terminates. |
| `RecursiveChunker.FallbackUnreachable` | services/rag/chunker/recursive.py:61-66 | With a separator list that ends in the empty one, no piece ever reaches the slicing by characters. |
| `RecursiveChunker.FinishFits` | services/rag/chunker/recursive.py:76-93 | Overlap keeps the number of chunks and their fit, and each chunk ends with what it was. |
| `RecursiveChunker.SplitFits` | services/rag/chunker/recursive.py:19-80 | Every chunk is non-empty, trimmed and within the chunk size, through all levels. |
| `RecursiveChunkerLaws.OverlapOnlyExtends` | services/rag/chunker/recursive.py:76-93 | With any overlap there are as many chunks as without, and each ends with its counterpart. |
| `RecursiveChunkerLaws.SplitKeeps` | services/rag/chunker/recursive.py:36-80 | Without overlap the chunks hold exactly the characters of the text that are neither white space nor separator punctuation, in order. |
| `RecursiveChunkerLaws.MergeIsGreedy` | services/rag/chunker/recursive.py:39-74 | The pieces are cut into consecutive runs, none left over: a piece too long by itself is a run alone and goes to the separators left, any other run is joined to a chunk and ends only where the next piece would not have fitted. |
| `RecursiveChunkerLaws.OverlapIsLongestTail` | services/rag/chunker/recursive.py:82-93 | With overlap a chunk is preceded by a space and the longest end of the chunk before that is within the configured length and does not start with white space, exactly if the three fit together; nothing is stripped from the chunk. |
| `RecursiveChunkerLaws.ChunkingLaws` | services/rag/chunker/recursive.py:11-93 | The three laws together for the program's own separators, every text and every configuration. |
| `RecursiveChunkerLaws.HardSlicesKeep` | services/rag/chunker/recursive.py:62-66 | The slices of the fallback, for a separator list without the empty one, hold all solid characters of the piece in order. |
| `RecursiveChunkerLaws.HardSlicesFit` | services/rag/chunker/recursive.py:62-66 | Each of these slices is trimmed and within the chunk size. |
| `RecursiveChunkerBoundaries.ContainsIff` | services/rag/chunker/recursive.py:32 | A separator is found in a text if and only if it stands there at some position. |
| `RecursiveChunkerBoundaries.PickIsCoarsest` | services/rag/chunker/recursive.py:26-34 | The separator used is empty, occurs in the text or is the last; none before it in the list is empty or occurs. |
| `RecursiveChunkerBoundaries.SplitOnIsSplit` | services/rag/chunker/recursive.py:37 | The pieces joined with the separator are the text, no piece contains it, and each was cut off at its first occurrence. |
| `RecursiveChunkerBoundaries.FittingTextIsOneChunk` | services/rag/chunker/recursive.py:21-22 | A text that fits is one chunk without the white space at its ends, or none if there is nothing else. |
| `RecursiveChunkerBoundaries.SplitAtCoarsest` | services/rag/chunker/recursive.py:19-93 | A text that is too long is split at that separator into those pieces, these are cut into greedy runs, only a piece too long by itself going to the separators after it, and then each chunk but the first gets its overlap. |
| `RecursiveChunkerBoundaries.RunIsJoined` | services/rag/chunker/recursive.py:42-50 | Pieces without white space at their ends are merged by putting the separator back between them. |
| `RecursiveChunkerBoundaries.WordsStayWhole` | services/rag/chunker/recursive.py:11-80 | If every stretch of the text between spaces and line ends fits the chunk size, no chunk begins or ends inside a word: without overlap the words of the chunks, one after the other, are the words of the text (words without separator punctuation at their ends, which splitting takes away). |
| `SentenceSplitter.SplitGivesList` | services/rag/chunker/sentence.py:13-53 | Whatever the text, sentences are not empty and trimmed, all but the last end in a stop, all but the first start with a capital letter, none could be cut further, and joined they are the text with its white space made single. |
| `SentenceSplitter.SplitInvertsJoin` | services/rag/chunker/sentence.py:48-53 | Splitting undoes joining on every such list. |
| `SentenceSplitter.SplitRangeIff` | services/rag/chunker/sentence.py:48-53 | The splitter can give a list if and only if it is such a list. |
| `SentenceSplitter.NormalKeepsWords` | services/rag/chunker/sentence.py:51 | Making white space single and trimming keeps the words of the text in order. |
| `SentenceSplitter.SplitIff` | services/rag/chunker/sentence.py:48-53 | The sentences of a text are the one such list whose words are those of the text, in order. |
| `SentenceChunker.Packed` | services/rag/chunker/sentence.py:25-40 | The packing loop joins the groups of the greedy packing. |
| `SentenceChunker.ApplyOverlap` | services/rag/chunker/sentence.py:55-69 | The overlap loop puts the last sentence of the previous chunk in front where it fits. |
| `SentenceChunker.Chunk` | services/rag/chunker/sentence.py:22-46 | Splitting, packing and overlap together, for every text and configuration. |
| `SentenceChunker.ChunkIsGroup` | services/rag/chunker/sentence.py:22-69 | Chunk k is the k-th group joined, or, with overlap, the last sentence of the group before and the k-th group joined, exactly where that is within the chunk size. |
| `SentenceChunker.GroupsArePacking` | services/rag/chunker/sentence.py:29-40 | The sentences are cut into consecutive groups, each a single sentence or within the chunk size; none is lost. |
| `SentenceChunker.GreedyAhead` | services/rag/chunker/sentence.py:29-37 | After every sentence greedy has used no more groups than any other packing, and no fuller last group at equal count. |
| `SentenceChunker.FewestGroups` | services/rag/chunker/sentence.py:29-40 | Greedy uses the fewest groups of all order-preserving packings. |
| `SentenceChunker.ChunkLength` | services/rag/chunker/sentence.py:22-46 | With or without overlap, a chunk of several sentences is at most half as long again as chunk_size. |
| `SentenceChunker.ChunkFitsIff` | services/rag/chunker/sentence.py:31-46 | With or without overlap, a chunk is within chunk_size if and only if the sentences of its group are, with the spaces between them counted. |
| `SentenceChunker.AllChunksFitIff` | services/rag/chunker/sentence.py:22-46 | All chunks of a text are within chunk_size if and only if each sentence is and a packer that counted the spaces would have formed the same groups. |
| `SentenceChunker.ChunkLengthIsTight` | services/rag/chunker/sentence.py:22-46 | For every chunk size of two and more there is a text that becomes a single chunk of exactly half as much again. |
| `Decimal.Pad10Width` | services/rag/fixtures/document_generator.py:1118 | Ten places hold an offset if and only if it is below 10^10. |
| `PdfFile.WritePdfObjects` | services/rag/fixtures/document_generator.py:1105-1125 | The writer's loops produce header, numbered objects, cross-reference table and trailer with the true offsets. |
| `PdfFile.ReadTrailerOf` | services/rag/fixtures/document_generator.py:1119-1124 | Between table and startxref a reader finds a trailer dictionary with the number of entries and object 1 as the catalog. |
| `PdfFile.ReadStartOf` | services/rag/fixtures/document_generator.py:1119-1124 | A reader entering from the end finds the position after startxref. |
| `PdfFile.ReadEntriesOf` | services/rag/fixtures/document_generator.py:1116-1118 | Twenty-byte entries read back every recorded offset when all fit, and none otherwise. |
| `PdfFile.SpanIsBlock` | services/rag/fixtures/document_generator.py:1108-1112 | Between two recorded offsets lies exactly one object, starting at its own number. |
| `PdfFile.RoundTripIff` | services/rag/fixtures/document_generator.py:1105-1125 | Following startxref and the table, and demanding a trailer of the same size, gives back every object body, and object 1 as the root, if and only if the last object starts within the first 10^10 bytes; otherwise the file is refused. |
| `PdfFile.SmallFilesRoundTrip` | services/rag/fixtures/document_generator.py:1105-1125 | Files below 10^10 bytes always round-trip, whatever bytes the objects hold. |
| `PdfFile.FilesDistinct` | services/rag/fixtures/document_generator.py:1105-1125 | Different object lists never give the same small file. |
| `PdfText.Paginate` | services/rag/fixtures/document_generator.py:1070-1072 | The generator loop yields the specified pages, for any page size. |
| `PdfText.PagesKeepLines` | services/rag/fixtures/document_generator.py:1070-1072 | Pages keep all lines in order, every page but the last being full and none empty. |
| `PdfText.PagesUnique` | services/rag/fixtures/document_generator.py:1070-1072 | There is only one such division into pages. |
| `PdfText.HexTextRoundTrip` | services/rag/fixtures/document_generator.py:1078 | The hexadecimal UTF-16 form of a text decodes to it, surrogate pairs included. |
| `PdfText.PdfTextStream` | services/rag/fixtures/document_generator.py:1075-1081 | The loop and the join produce the specified drawing instructions. |
| `PdfText.TextStreamRoundTrip` | services/rag/fixtures/document_generator.py:1075-1081 | The lines of a page are read back from its instructions. |
| `PdfDocument.BuildPdfObjects` | services/rag/fixtures/document_generator.py:948-966 | The loop builds catalog, page tree, page and stream objects and fonts in the specified order. |
| `PdfDocument.Objects` | services/rag/fixtures/document_generator.py:948-966 | A document of n pages has 2n + 6 objects. |
| `PdfDocument.PagePlace` | services/rag/fixtures/document_generator.py:958-963 | Page i is object 3 + 2i and its content stream is object 4 + 2i. |
| `PdfDocument.FontPlace` | services/rag/fixtures/document_generator.py:964-1011 | The four font objects are numbers 3 + 2n to 6 + 2n. |
| `PdfDocument.StreamRoundTrip` | services/rag/fixtures/document_generator.py:976-983 | The announced length is the true one, so the data is found again whatever it contains. |
| `PdfDocument.FontResolves` | services/rag/fixtures/document_generator.py:986-1011 | The font reference leads to a composite font whose descendant, descriptor and Unicode map all resolve. |
| `PdfDocument.TreeRoundTrip` | services/rag/fixtures/document_generator.py:952-955 | The page tree lists exactly the page numbers 3, 5, 7, ... and counts them. |
| `PdfDocument.DocumentRoundTrip` | services/rag/fixtures/document_generator.py:948-1011 | Following every reference from the catalog leads to objects of the intended kinds and gives the pages back line by line. |
| `PdfDocument.WritePdf` | services/rag/fixtures/document_generator.py:943-945 | Paginating, building and writing the wrapped lines. |
| `PdfDocument.LinesRoundTripIff` | services/rag/fixtures/document_generator.py:936-1125 | From bytes through table, trailer, the catalog it names, page tree and streams the lines come back, at most 36 to a page, if and only if the last object starts within the first 10^10 bytes. |
| `LogReader.SplitJoin` | services/admin-dashboard/internal/server/audit.go:160 | Lines hold no line ends, lie where they say, and give the text back when joined. |
| `LogReader.TakeLines` | services/admin-dashboard/internal/server/audit.go:165-175 | The inner loop appends the entries of a block in reverse up to the limit. |
| `LogReader.ReadBack` | services/admin-dashboard/internal/server/audit.go:140-177 | The block loop returns the buffer and then what the blocks emit, cut to the limit, for every block size. |
| `LogReader.BlocksEmitLines` | services/admin-dashboard/internal/server/audit.go:145-176 | The blocks emit the decodable lines newest first, skipping none; a line comes twice exactly when it starts where a block does. |
| `LogReader.EachLineOnceIff` | services/admin-dashboard/internal/server/audit.go:145-176 | Every line is read exactly once if and only if no line holding an entry starts on a block boundary. |
| `AuditLog.AuditStore.constructor` | services/admin-dashboard/internal/server/audit.go:34-46 | A new store has an empty buffer. |
| `AuditLog.AuditStore.Log` | services/admin-dashboard/internal/server/audit.go:67-108 | One entry goes to the end of the file and to the buffer, which keeps the last 10000; an entry that cannot be marshalled changes nothing. |
| `AuditLog.AuditStore.Recent` | services/admin-dashboard/internal/server/audit.go:116-187 | Answers from the buffer when it is large enough, else buffer and then file, cut to the limit. |
| `AuditLog.LogAllHolds` | services/admin-dashboard/internal/server/audit.go:67-108 | For a store opened on a file of older entries, after any run the buffer is the last 10000 new entries and the file is all entries, one a line. |
| `AuditLog.WithinBuffer` | services/admin-dashboard/internal/server/audit.go:120-126 | Within the buffer Recent is the last entries in the order they were logged. |
| `AuditLog.BeyondBuffer` | services/admin-dashboard/internal/server/audit.go:128-187 | Past the buffer Recent goes on with the lines of the file, newest first, those on a block boundary twice, cut to the limit. |
| `AuditLog.FileGivesAll` | services/admin-dashboard/internal/server/audit.go:145-176 | Over a file of whole entries the reader gives every entry at least once and nothing else. |
| `AuditLog.FileGivesNewestFirst` | services/admin-dashboard/internal/server/audit.go:145-176 | Over a file of whole entries the newest comes first. |
| `AuditLog.FileGivesLogReversedIff` | services/admin-dashboard/internal/server/audit.go:145-176 | The reader gives the whole log reversed, each entry once, if and only if no entry starts on a block boundary. |
| `AuditLog.BoundaryEntryTwice` | services/admin-dashboard/internal/server/audit.go:145-176 | A log of two entries, the second filling a block with its line end: after a restart it is returned twice. |
| `AuditLog.NewestTwice` | services/admin-dashboard/internal/server/audit.go:128-187 | Past a buffer that is not empty the newest entry is returned a second time. |
| `AuditLog.SecondOfTwoTwice` | services/admin-dashboard/internal/server/audit.go:113-187 | Two entries logged and three asked for: the second is returned twice. |
| `AuditLog.RecentIsEndOfLogIff` | services/admin-dashboard/internal/server/audit.go:113-187 | Recent is the end of the log, in order and without repetition, if and only if the limit is within the buffer, the log is empty, or with an empty buffer a single entry is asked for or logged. |
| `AuditLog.LogEachIsLogAll` | services/admin-dashboard/internal/server/audit.go:77-81 | Entries that cannot be marshalled leave the store as if they had never been logged. |
| `AuditLog.WithoutFileIsEndOfLog` | services/admin-dashboard/internal/server/audit.go:113-132 | While no file can be opened, Recent is the end of the log in order, for any limit, as far as the buffer reaches. |
| `ToolLoops.CanonicalIff` | services/agent-db/agent_db/bench/parser.py:21-25 | Two dictionaries have the same canonical form if and only if they agree on every key, null values counting as absent. |
| `ToolLoops.SameToolIff` | services/agent-db/agent_db/bench/parser.py:10-18 | Two calls are the same if and only if compared names and arguments agree, nulls aside. |
| `ToolLoops.ReportedNameIff` | services/agent-db/agent_db/bench/parser.py:28-34 | A loop is reported under the name it was detected by exactly under the stated condition on the two name fields. |
| `ToolLoops.LoopReportedUnderOtherName` | services/agent-db/agent_db/bench/parser.py:28-34 | Three records that name two tools: a loop of one is reported as a loop of the other. |
| `ToolLoops.ReportedArgsIff` | services/agent-db/agent_db/bench/parser.py:37-43 | The arguments reported are the ones compared exactly under the stated condition on the two places; in either log format they are. |
| `ToolLoops.LoopReportedWithOtherArgs` | services/agent-db/agent_db/bench/parser.py:37-43 | Three records with arguments in both places: the loop is one of the arguments at the top, the warning shows those in the data. |
| `ToolLoops.LoopsAreMaximalRuns` | services/agent-db/agent_db/bench/parser.py:46-77 | The reported loops are exactly the maximal runs of three or more same calls, in order and apart. |
| `ToolLoops.WarningsReportLoops` | services/agent-db/agent_db/bench/parser.py:60-72 | One warning for each loop: its streak is the length of the run, its name and its arguments, key by key, are those of the first call, the ones in the data going first. |
| `ToolLoops.DetectToolLoops` | services/agent-db/agent_db/bench/parser.py:46-77 | The nested loops with their early exits compute those warnings. |
| `Envsubst.SplitPrints` | services/helperium-go/config/envsubst.go:68-79 | Key, separator and default of an expression give it back. |
| `Envsubst.SplitsAtFirst` | services/helperium-go/config/envsubst.go:73-79 | An expression is split at its first separator. |
| `Envsubst.FoundFirst` | services/helperium-go/config/envsubst.go:33-50 | Searches return the first occurrence. |
| `Envsubst.Envsubst` | services/helperium-go/config/envsubst.go:28-66 | The scanning loop computes the specified expansion, errors included, in order of occurrence. |
| `Envsubst.ExpandRendersSegments` | services/helperium-go/config/envsubst.go:28-66 | The expansion renders each parsed segment once, so a substituted value is never scanned again. |
| `Envsubst.ParsePrint` | services/helperium-go/config/envsubst.go:28-66 | Printing the parsed segments gives the text back. |
| `Envsubst.ExpandConcat` | services/helperium-go/config/envsubst.go:28-66 | If no variable is left open and none opens across the seam, expanding two texts in a row is expanding each. |
| `Envsubst.Concatenation` | services/helperium-go/config/envsubst.go:28-66 | When the first text succeeds the results are joined. |
| `Envsubst.ConcatenationIff` | services/helperium-go/config/envsubst.go:28-66 | Substituting two texts apart and joining the results is substituting them together, in every environment in which both succeed, if and only if one of them can never succeed or no dollar sign meets an opening brace between them. |
| `Envsubst.ErrorsConcatenateIff` | services/helperium-go/config/envsubst.go:28-66 | For texts without an unclosed variable, the errors too are those of the two texts, in every environment, if and only if nothing opens across the seam. |
| `Envsubst.SeamMatters` | services/helperium-go/config/envsubst.go:36-42 | A pair of texts, a dollar sign and a pair of braces, for which the law fails. |
| `EnvsubstForms.PlainText` | services/helperium-go/config/envsubst.go:33-38 | A text in which no variable opens stays as it is. |
| `EnvsubstForms.NeverClosed` | services/helperium-go/config/envsubst.go:43-46 | An opening that nothing closes is an error at its place. |
| `EnvsubstForms.Required` | services/helperium-go/config/envsubst.go:53-61 | A variable without default gives its value, and an error naming it if it is not set. |
| `EnvsubstForms.WithDefault` | services/helperium-go/config/envsubst.go:50-63 | A variable with a default gives its value, which may be empty, and the default, the text after the first separator, if it is not set. |
| `Bm25.TokenFrequency` | services/rag/reranker/bm25.py:52-57 | The dictionary holds the number of occurrences of exactly the tokens present. |
| `Bm25.ComputeBm25` | services/rag/reranker/bm25.py:59-89 | For any parameters the loops compute the specified scores, or raise at the first division by zero. |
| `Bm25.ComputesIff` | services/rag/reranker/bm25.py:59-89 | The scores cannot be computed if and only if some document holds a query token just as often as makes its denominator zero. |
| `Bm25.ValidNeverDivides` | services/rag/reranker/bm25.py:15-17 | With k1 not negative and b between 0 and 1 no document divides by zero. |
| `Bm25.MinusOneDivides` | services/rag/reranker/bm25.py:84-87 | With k1 at -1 and b at 0, which the constructor accepts, a token that occurs once divides by zero. |
| `Bm25.IdfPositive` | services/rag/reranker/bm25.py:67-71 | Every token has a positive weight, however many documents hold it. |
| `Bm25.TermRises` | services/rag/reranker/bm25.py:81-87 | With k1 above zero a term rises strictly with the frequency. |
| `Bm25.TermBelowCeiling` | services/rag/reranker/bm25.py:84-87 | A term stays below its weight times k1 + 1. |
| `Bm25.TermRisesIff` | services/rag/reranker/bm25.py:84-87 | Frequencies are told apart if and only if k1 is above zero. |
| `Bm25.ScoreSign` | services/rag/reranker/bm25.py:73-88 | With such parameters every document has a score, above zero if and only if it holds a token of the query. |
| `Bm25.RerankWithScores` | services/rag/reranker/bm25.py:34-46 | Single results and empty queries are left alone; otherwise scores are computed and sorted, for any parameters. |
| `Bm25.RerankRaisesIff` | services/rag/reranker/bm25.py:34-46 | Reranking raises if and only if there are two results or more and one of them divides by zero. |
| `Bm25.StableSortSorts` | services/rag/reranker/bm25.py:46 | Ranking is a descending permutation that keeps equal scores in their order. |
| `Bm25.StableOrderUnique` | services/rag/reranker/bm25.py:46 | There is only one such ranking. |
| `Bm25.SharersComeFirst` | services/rag/reranker/bm25.py:34-46 | With such parameters, two or more results and a query there is a ranking, in which documents that share a token with the query precede those that share none. |
| `Bm25Ranking.DocCountIsHolders` | services/rag/reranker/bm25.py:70 | The document count of a token is the number of results that hold it. |
| `Bm25Ranking.IdfArgumentIs` | services/rag/reranker/bm25.py:71 | For a token in c of n results the argument of the logarithm is (2n + 2) / (2c + 1). |
| `Bm25Ranking.RarerWeighsMoreIff` | services/rag/reranker/bm25.py:67-71 | With a strictly increasing logarithm one token weighs more than another if and only if fewer results hold it. |
| `Bm25Ranking.TermFallsIff` | services/rag/reranker/bm25.py:84-87 | A token counts for less in a longer document if and only if k1 and b are above zero, and never for more. |
| `Bm25Ranking.TermAtAverage` | services/rag/reranker/bm25.py:84-87 | In a document of average length a token that occurs once adds just its weight. |
| `Bm25Ranking.ScoreAmongEqual` | services/rag/reranker/bm25.py:65-88 | Among results of one length, a document that holds one token of the query once scores just its weight. |
| `Bm25Ranking.ScoresAdd` | services/rag/reranker/bm25.py:80-88 | The score for one query followed by another is the sum of the scores for the two. |
| `Bm25Ranking.NothingToRank` | services/rag/reranker/bm25.py:39-43 | A single result, or a query without tokens, leaves the results in place with no score. |
| `Bm25Ranking.RankingIsSorted` | services/rag/reranker/bm25.py:44-46 | Otherwise the ranking is the results, each with its own score, in descending order, equal scores in the order given. |
| `Bm25Ranking.HigherScoreAbove` | services/rag/reranker/bm25.py:46 | Wherever they are in the ranking, a document with the higher score is above one with the lower. |
| `Bm25Ranking.RarerTokenAbove` | services/rag/reranker/bm25.py:34-88 | Of two documents of the same length, each holding one query token once, the one whose token is held by fewer results is ranked above the other. |
| `Bm25Ranking.ShorterAbove` | services/rag/reranker/bm25.py:34-88 | With k1 and b above zero, of two documents that hold the same query token once the shorter is ranked above the longer. |

## Left out

- TokenBucket.IpBucket.TakeToken: uses real numbers for tokens and time, so float64 rounding is not modelled.
- DocumentStore.DocumentRepository.RemoveDocument: a request with neither path nor id, which the handler refuses
  before the operation, names nothing here; the title in the answer is left out.
- RateLimiter.IpRateLimiter.AllowRequest: is one whole call; calls that interleave between the two mutexes are
  modelled on values, in `RateLimiterInterleavings`.
- DocumentStore.DocumentRepository.SaveDocumentWithChunks: models one connection whose operations do not
  interleave, always with a vector store; MIME type, discipline, token counts and failing SQL inserts are
  left out (the runs show that the uniqueness constraints cannot be hit).
- VectorStore.ChromaStore.EnsureEmbeddingConsistency: keeps ids and metadata only; embeddings, distances and
  search belong to ChromaDB and the embedding models.
- PdfText.PdfTextStream: texts hold no lone surrogates, on which the source raises an error.
- PdfDocument.WritePdf: starts from wrapped lines; markdown stripping, text wrapping and writing to disk are
  not part of this model.
- AuditLog.AuditStore.Log: writes always succeed and one file stays open; month rotation, reopening and sync
  are left out.
- AuditLog.AuditStore.Recent: the file can be opened and read; limits are not negative (the handler passes
  1 to 1000), and trimming a line counts as part of decoding it.
- ToolLoops.DetectToolLoops: a record's data field is an object or empty; values are compared as opaque
  values, and other non-dictionary arguments by their printed form.
- Bm25.ComputeBm25: tokens are given; the tokenizer's regular expression and lower-casing are not modelled.
- HTTP handlers, proxies, middleware, metrics, tracing and the reading of environment settings: plumbing.
- The cache of search results (`services/rag/cache`): a cached answer may have been computed for another
  limit, so there is no law to prove of it.
- `save_generated_document_fallback`: replaces SQL rows without touching vectors; it is not an operation of
  the import and delete machine.
- `chunk_pages`: removes tails by comparing 20-character prefixes, which has no exact conservation law.
- Configuration checks (`Validate`, `Normalize`, `IsFilterableField`): field by field, they would add easy
  members.
