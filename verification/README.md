# Verified model of go-clockwork

go-clockwork records what happens during one HTTP request (database queries, cache operations,
log lines, timeline events), stores a bounded number of such records, and lets a client read
them back. This project models the parts that carry that promise and proves what they keep.

| part | modules | form |
|---|---|---|
| shared values | `Common`, `Keys`, `LogTrace`, `Listing` (server answers, and reading a list of documents) | functions |
| in-memory storage (`storage_memory.go`) | `Recency` (the sequence it stands for), `MemoryStorage` (linked list, id index and byte total, changed in place), `MemoryRuns` (theorems over whole runs) | classes, functions, lemmas |
| request recorder (`collector.go`) | `CollectorSpec` (what one call does to the recorded state), `Collector` (the class), `CollectorRuns` and `CollectorLaws` (theorems over whole runs), `CollectorAdmission` (which calls are recorded), `CollectorMeaning` (what records, events and names show of the calls) | class, functions, lemmas |
| memcache backend (`storage/memcache/memcache.go`) | `MemcacheSpec`, `MemcacheStorage` (classes for the server and the backend), `MemcacheLaws` (time to live over sequential runs, failing commands), `MemcacheThreads` (all interleavings) | classes, step machine, lemmas |
| redis backend (`storage/redis/redis.go`) | `RedisSpec`, `RedisStorage` (classes for the server and the backend), `RedisLaws` (expiry within a pipeline, failing commands), `RedisPipelines` (all interleavings of commands) | classes, step machine, lemmas |
| backends against each other | `Backends` | lemmas |
| runtime service (`clockwork.go`) | `Clockwork` (the class), `TraceRegistry` (all interleavings of requests and loggers) | class, step machine, lemmas |
| zap stack parser (`integrations/zap/zap.go`) | `GoText` (trimming, lines, numbers), `ZapTrace` (parser, printer, deduplication) | functions, loops, lemmas |

How to read it. Every class is proved against a value: `Entries()` of the in-memory storage,
`Model()` of the collector, `state` of the two remote backends. Each method says what the new
value is in terms of the old one, through one function per operation (`Recency.Apply`,
`CollectorSpec.Apply`, `MemcacheSpec.StoreUnder`, `RedisSpec.StoreUnder`). The theorems about runs
are then about those functions. What the functions themselves mean is fixed by independent
notions: the longest admissible suffix of the history, the caps and prices that decide whether a
call is recorded, the ledger of drops, the arguments a record shows, the recency order of ids, the
first occurrences of frames, a printer for stacks.

Where the source is concurrent, a step machine has one step per atomic action and the theorems
hold after any sequence of enabled steps of any number of threads. The machines are tied
to the classes: an undisturbed thread does exactly what one call of the class does
(`AloneIsStore` for memcache and redis, `RegisterAlone` and `UnregisterAlone` for the registry).

Time, the answers of the remote servers, the JSON encoder, runtime statistics, stacks and the
caller's position are parameters. A server command may be answered, fail, or take effect with its
answer lost, and each command has its own time.
The JSON encoding of a document is an opaque optional text whose length is the document's size.

## What the proofs show about the code

- The in-memory store is exact when it holds the longest suffix of the latest view of its history
  that respects both limits and the greatest age cutoff. It is exact all through a run exactly if
  no store of the run is regretted (`MemoryRuns.AlwaysExactIff`). A store is regretted when the
  newest entry already lost is young enough and fits in front of what the store keeps and the new
  entry, so that the eviction it fell to is not undone; this can be checked before the call
  (`MemoryRuns.StoreExactIff`), and `MemoryRuns.ShrinkingRestoreIsInexact` is such a run. Without a
  re-store that carries fewer bytes nothing is regretted (`MemoryRuns.ExactHistory`), and with
  fresh ids never (`MemoryRuns.ExactHistoryFreshIds`). At a single moment the store is exact
  exactly if the newest lost entry would not fit (`MemoryRuns.ExactIff`), and after any run it is a
  tail of the latest view (`MemoryRuns.RunIsSuffixOfLatest`).
- The clamp of a negative byte total and the check for an empty list during eviction
  (storage_memory.go:145-147 and 157-159) are unreachable; both are asserted impossible in
  `MemoryStorage`.
- A log trace longer than 12 frames is cut without raising the truncation flag
  (collector.go:455-460): while the flag is down, a non-empty trace is stored whole exactly if it
  has at most 12 frames (`CollectorLaws.WholeTraceIff`), and `CollectorLaws.ThirteenFrames` is a
  run that loses the thirteenth. `CollectorLaws.FaithfulTranscript` promises the first 12.
- A completed request leaves its registry entry behind when its snapshot does not show the trace id
  it was registered under. This happens in two ways: a trace id longer than the string limit is
  registered whole but shown cut (collector.go:187, clockwork.go:135-137;
  `TraceRegistry.LongTraceLeaks`, with an id of 32 digits and a limit of 16
  `TraceRegistry.ThirtyTwoDigitsLeak`), and a handler or data source may give the collector another
  trace id before the snapshot (`TraceRegistry.ResetTraceLeaks`). For every interleaving, trace ids
  shared and set again at will, the registry drains exactly if every registration under an id is
  followed by the removal of a request that shows this id (`TraceRegistry.DrainsIff`). It drains if
  every traced request shows its own id, and only then when none shows another's
  (`TraceRegistry.DrainsIfShown`). When trace ids are never set again, as the middleware itself does
  it, it drains exactly if no id is longer than the limit (`TraceRegistry.DrainsIffShort`).
- `HasActiveTraces` is exact when no registration or removal is between its two steps
  (`TraceRegistry.QuietCounter`); in between, the counter is off by the steps under way, and right
  after an id is stored in the map it still says that nothing is active (`TraceRegistry.CounterLags`).
- A listed id of memcache may have lost its document for good: another thread's eviction deletes a
  document that was set again meanwhile (`MemcacheThreads.LosesPayload`). What is listed or about to
  be has its document all through a run exactly if no deletion hits an id that another thread is
  about to list (`MemcacheThreads.BackedIff`). With fresh ids, which request ids are, it always has,
  and at rest exactly the listed ids have documents (`MemcacheThreads.FreshIdsHavePayloads`).
- The redis index lists an id twice when it is stored again among the last `maxEntries` stores;
  `Backends.RedisIndexAgreesIff` is the exact condition for agreement with the in-memory list, and
  `Backends.RedisListAgreesIff` the same for full listings, where the document shows up twice.
- The commands of a redis pipeline are not atomic. When the index expires after the push and before
  the last command, a pipeline that completes without an error leaves an index without the new id:
  `RedisLaws.ListedIff` proves that this is the only way to lose it, `RedisLaws.TornPipeline` is an
  instance.
- Whatever the memcache server answers, a failing store leaves the old or the new index and neither
  changes nor loses another document (`MemcacheLaws.FailuresAreContained`). A redis pipeline is no
  transaction: the commands after a refused one are executed all the same. It never changes another
  document (`RedisLaws.FailuresAreContained`), but it lists a new id without its document exactly if
  setting the document failed and the push did not (`RedisLaws.DanglingIff`, `RedisLaws.RefusedSet`).
- In a zap trace the caller's frame has no call and every parsed frame has one, so the caller's
  frame never suppresses the stack's own first frame (`ZapTrace.CallerHidesNothing`).

## Model

| member | source | states |
|---|---|---|
| Recency.EvictIsLongest | storage_memory.go:142-150 | eviction keeps the longest suffix of the list that respects the count and the byte limit |
| Recency.LongestIsUnique | storage_memory.go:142-150 | there is only one longest admissible suffix, so the characterisations below determine the content |
| MemoryStorage.LinkedList.PushBack | storage_memory.go:73 | a new element is linked at the end and the list stays well linked both ways |
| MemoryStorage.LinkedList.Remove | storage_memory.go:161 | exactly the given element is unlinked, whatever its position |
| MemoryStorage.InMemoryStorage.constructor | storage_memory.go:30-44 | an empty store; limits that are not positive become 200 entries and 64 MiB |
| MemoryStorage.InMemoryStorage.Store | storage_memory.go:47-79 | refused exactly for nil, an empty id or an unencodable document, the first of these that holds is the error, and then nothing changes; otherwise the id moves to the end and the oldest entries are evicted; list, index and byte total stay consistent and within the limits |
| MemoryStorage.InMemoryStorage.Get | storage_memory.go:82-97 | the index finds the document the list holds under that id, or nothing |
| MemoryStorage.InMemoryStorage.List | storage_memory.go:100-117 | the newest documents, newest first, up to the limit |
| MemoryStorage.InMemoryStorage.Cleanup | storage_memory.go:120-140 | one walk removes exactly the entries older than the cutoff, in place |
| MemoryStorage.InMemoryStorage.AppendLocked | storage_memory.go:67-75 | list, index and byte total all take the new entry |
| MemoryStorage.InMemoryStorage.EvictLocked | storage_memory.go:142-150 | the loop terminates, restores both limits and never meets an empty list |
| MemoryStorage.InMemoryStorage.RemoveElementLocked | storage_memory.go:152-162 | removes one element from list and index and its bytes from the total, which never goes below zero |
| MemoryRuns.RunInvariant | storage_memory.go:47-79 | after every run ids are distinct and both limits hold, whatever the clock does |
| MemoryRuns.StoreExactIff | storage_memory.go:63-77 | from an exact store, storing an entry that is not older than the cutoff leaves an exact store if and only if the newest lost entry would not fit in front of what is kept; any ids, sizes and other times |
| MemoryRuns.AlwaysExactIff | storage_memory.go:47-140 | all through a run of stores and cleanups the content is the longest suffix of the latest view of the history that respects both limits and the greatest age cutoff, if and only if no store is regretted |
| MemoryRuns.ExactIff | storage_memory.go:47-140 | after any run the content is that longest suffix if and only if the newest lost entry is too old or would not fit |
| MemoryRuns.ExactHistory | storage_memory.go:60-79 | in particular it is exact after every run in which no id is stored again with fewer bytes |
| MemoryRuns.ExactHistoryFreshIds | storage_memory.go:60-79 | with pairwise distinct ids the same holds of the history itself |
| MemoryRuns.ShrinkingRestoreIsInexact | storage_memory.go:63-77 | a concrete run of three stores, the last one regretted, after which the store is not exact |
| MemoryRuns.RunIsSuffixOfLatest | storage_memory.go:60-79 | with any re-stores the store is a tail of the latest view of its history |
| MemoryRuns.Inclusion | storage_memory.go:47-79 | on the same run, a smaller store always holds a suffix of what a larger store holds |
| MemoryRuns.StoreOutcome | storage_memory.go:63-77 | after one store: the new entry is last exactly if it fits alone, before it the longest fitting run of others, and an oversized entry empties the store |
| MemoryRuns.StoreThenGet | storage_memory.go:47-97 | reading an id back right after storing it succeeds exactly if the document fits alone |
| MemoryRuns.GetAgreesWithList | storage_memory.go:82-117 | after any run, an id is found exactly if the full list shows it, with the same document |
| MemoryRuns.NewestIsReversedSuffix | storage_memory.go:100-117 | the listing is the end of the store backwards, cut to the limit |
| MemoryRuns.NotBeforeKeeps | storage_memory.go:130-137 | age cleanup keeps exactly the entries that are not older than the cutoff |
| Common.CheckAccepts | storage_memory.go:47-58 | a document is stored if and only if it is there, has an id and can be encoded; each error is returned exactly when the earlier checks pass and its own fails |
| Collector.Collector.constructor | collector.go:95-118 | an empty recorder; a string limit that is not positive becomes 2048 |
| Collector.Collector.SetResponseData | collector.go:129-148 | the response is set and one "request" event goes on the timeline or is counted as dropped |
| Collector.Collector.SetHeaders | collector.go:151-158 | the headers are replaced and nothing else changes |
| Collector.Collector.SetURL | collector.go:161-168 | the URL is cut to the string limit, and a cut is counted |
| Collector.Collector.SetController | collector.go:171-178 | the controller is cut to the string limit, and a cut is counted |
| Collector.Collector.SetTrace | collector.go:181-189 | trace id and span id are cut to the string limit, each cut counted |
| Collector.Collector.AddDatabaseQueryDetailed | collector.go:200-231 | reserves bytes, or drops and counts; then records the query and one "db" event; what they show is the subject of ListsShowCalls |
| Collector.Collector.AddCacheQuery | collector.go:234-254 | reserves bytes, or drops and counts; then records the operation with its texts cut and one "cache" event |
| Collector.Collector.AddLogEntryWithTrace | collector.go:262-287 | reserves bytes for message and trace, then records level, message, context and trace, each cut; without a trace it takes the running stack |
| Collector.Collector.AddTimelineEvent | collector.go:290-302 | reserves bytes, then appends the event with its texts cut |
| Collector.Collector.SetUserData | collector.go:306-316 | the value is set under its key, an empty key is ignored, and nothing else changes |
| Collector.Collector.GetMetadata | collector.go:319-377 | every field of the snapshot is the field of the recorder, the totals are the sums of durations, and nothing changes |
| Collector.Collector.ReserveLocked | collector.go:379-399 | refuses on a full list or an exhausted budget, counting which; otherwise charges the estimate; when that is, is the subject of RecordedIff |
| Collector.Collector.AppendTimelineLocked | collector.go:401-421 | appends within the timeline cap with the duration never negative, otherwise counts a drop |
| Collector.Collector.SanitizeContext | collector.go:423-448 | in any iteration order: texts cut, at most 20 keys, an overflow counted once |
| Collector.Collector.SanitizeTrace | collector.go:450-469 | the first 12 frames with their texts cut |
| Collector.Collector.CaptureCurrentStackTrace | collector.go:471-498 | the first 12 frames of the stack that name a file, vendor paths marked, texts cut |
| LogTrace.VendorIff | collector.go:556-562 | a path is a vendor path if and only if "/vendor/" or "/pkg/mod/" occurs in it, in any case |
| Collector.Collector.Truncate | collector.go:500-507 | cuts to the limit, raises the flag and counts, or leaves everything alone |
| CollectorAdmission.RecordedIff | collector.go:379-399 | after any run, a recording call is recorded if and only if its list is below its cap and its price fits in the budget beside those of the calls recorded before; otherwise only the ledger changes, where one counter rises by one: its own when the list is full, `payload` when the budget is; a recorded database or cache call counts a drop of its event exactly when the timeline is full |
| CollectorMeaning.ListsShowCalls | collector.go:200-302 | after any run, record by record and event by event: texts, durations, marks, traces, contexts, descriptions and colors are those of the call, texts cut to the string limit |
| CollectorMeaning.TranscriptShowsCalls | collector.go:200-302 | while the flag is down, record `k` of a kind shows call `k` of that kind with every text as it came, and the timeline shows every call that has an event |
| CollectorMeaning.CutsAreCounted | collector.go:423-507 | a recorded call raises the count of cut strings by the number of its texts longer than the limit, and the count of contexts by one exactly if fields were left out |
| CollectorMeaning.NamesAreLastSet | collector.go:129-189 | a snapshot shows the URL, controller, trace and span ids, headers, user data and response that were set last, or none |
| CollectorRuns.Conservation | collector.go:129-421 | every database, cache, log, direct timeline and response call is accounted for by a log entry, a timeline event or a counted drop; the flag is up exactly if the ledger is not empty and every counter is at least one |
| CollectorRuns.RunsExtend | collector.go:319-377 | lists of earlier snapshots are prefixes of later ones, drop counters never fall, the flag never goes down |
| CollectorRuns.HoldsAccepted | collector.go:207-287 | the record lists are made of the accepted calls, all of them and in call order |
| CollectorRuns.SanitizeContextIsNoted | collector.go:423-448 | the context of a log entry does not depend on earlier drops, and is the fields as passed in when nothing was cut |
| CollectorLaws.BudgetIsExact | collector.go:379-399 | the bytes charged are exactly the estimates of the calls whose record was stored, never above the budget |
| CollectorLaws.RetainedBytes | collector.go:207-301 | with a budget, the query, key and message texts of the records held, with their fixed overheads, and the names and descriptions of direct timeline events never exceed it; other texts of a record are in no estimate |
| CollectorLaws.FaithfulTranscript | collector.go:200-302 | while the flag is down every call is in the lists, in order, with one event per database, cache, direct and response call |
| CollectorLaws.WholeTraceIff | collector.go:450-469 | while the flag is down, the non-empty trace of a log call is stored whole if and only if it has at most 12 frames |
| CollectorLaws.ThirteenFrames | collector.go:455-460 | a log call with 13 short frames that stores 12 of them and leaves the flag down |
| CollectorLaws.TimelineIsExact | collector.go:401-421 | whatever is dropped, the timeline is the first events, up to its cap, of the accepted and the response calls in call order |
| CollectorLaws.AlwaysBounded | collector.go:161-507 | after any run no list outgrows its cap, no text of a record or event, URL, controller, trace id or span id the string limit, no context 20 keys, no trace 12 frames |
| CollectorLaws.TraceIsLastSet | collector.go:181-189 | a snapshot shows the cut form of the trace id set last, whatever else was called since |
| CollectorLaws.SnapshotTotals | collector.go:319-357 | a snapshot's query count and total time are those of exactly the database calls that were recorded |
| CollectorLaws.DurationLosesMicroseconds | collector.go:540-542 | a duration is shown in milliseconds as whole microseconds rounded toward zero |
| CollectorLaws.EventsSpan | collector.go:408-420 | every event on the timeline ends at its start plus its duration, or shows neither; no duration is negative |
| Keys.ReqKeyInjective | storage/memcache/memcache.go:166-168 | different ids have different keys |
| Keys.ReqKeyIsNotIndexKey | storage/memcache/memcache.go:166-168 | no document key is the index key |
| Keys.RecentIdsOrder | storage/memcache/memcache.go:202-211 | moving each stored id to the front keeps every id once, ordered by its last store |
| Keys.TakePrepend | storage/memcache/memcache.go:96-101 | cutting the index before an id is moved to the front makes no difference once it is cut again, so a cut index loses nothing the limit would keep |
| Keys.PrefixIsTrimmed | storage/memcache/memcache.go:50-53 | the key prefix is the configured one without the white space around it, or "clockwork" if nothing else is left |
| Listing.FoundWhere | storage/memcache/memcache.go:133-159 | a listing holds the documents of exactly the ids whose read is answered and finds one, in index order |
| MemcacheStorage.UsableAre | storage/memcache/memcache.go:35-41 | an endpoint is used exactly if it is not empty and is some configured endpoint without the white space around it |
| MemcacheStorage.NoneUsable | storage/memcache/memcache.go:42-44 | no endpoint is left exactly if all of them are blank |
| MemcacheStorage.Storage.New | storage/memcache/memcache.go:34-63 | refuses when no endpoint is left after trimming, otherwise a backend over what the server holds under the trimmed prefix, with the defaults for a blank prefix and a non-positive time to live |
| MemcacheStorage.Storage.Store | storage/memcache/memcache.go:66-112 | refused exactly for nil, an empty id or an unencodable document, with the first of these errors and before the server is asked; otherwise document set, index rewritten and cut, evicted documents deleted, each with its deadline; the first command that is not answered ends the call with an error |
| MemcacheStorage.Storage.UpdateIndexLocked | storage/memcache/memcache.go:88-111 | the part under the mutex: an index read or write that is not answered ends it, answers to deletions are ignored |
| MemcacheStorage.Storage.Get | storage/memcache/memcache.go:115-130 | the document if it is there and alive, a miss if not, an error when the read is not answered |
| MemcacheStorage.Storage.List | storage/memcache/memcache.go:133-159 | an error when the index cannot be read, otherwise the documents among the first `limit` ids of the index that are read and alive at their own time, in index order |
| MemcacheStorage.Storage.LoadIndexLocked | storage/memcache/memcache.go:170-184 | the ids of the index, none when it is missing or expired, an error when the read is not answered |
| MemcacheStorage.Storage.SaveIndexLocked | storage/memcache/memcache.go:186-200 | the index is replaced and lives for one time to live, unless the write fails; no document changes |
| MemcacheStorage.Storage.PrependUnique | storage/memcache/memcache.go:202-211 | the id first, then the others in their order without it |
| MemcacheLaws.RunKeepsInv | storage/memcache/memcache.go:79-105 | over sequential stores the index never expires before a document it lists, deadlines fall along the index, and every live document is listed and is the latest of its id |
| MemcacheLaws.ListShowsRecentLive | storage/memcache/memcache.go:133-159 | at any instant the live documents are those of the most recently stored ids, and a listing that takes no time shows exactly min(limit, live) of them, newest first |
| MemcacheLaws.ListingOverTime | storage/memcache/memcache.go:133-159 | with documents read one after another, a listing shows the latest documents of the most recently stored ids, newest first, each alive when read, and unless the limit is reached nothing else is alive when it ends |
| MemcacheLaws.NoFailure | storage/memcache/memcache.go:79-111 | when every command is answered a store succeeds with the effect the laws above are about |
| MemcacheLaws.FailuresAreContained | storage/memcache/memcache.go:79-111 | whatever is answered: a store succeeds exactly if payload write, index read and index write are answered; the index is the new or, after a failure, possibly the old one; no other document changes, and only a successful store deletes |
| MemcacheLaws.IndexSurvives | storage/memcache/memcache.go:88-111 | whatever is answered, the index stays free of duplicates and within the limit |
| MemcacheThreads.EveryInterleaving | storage/memcache/memcache.go:79-111 | under every interleaving the mutex is exclusive, no document is orphaned, and the index is duplicate-free, within the limit and the most recently saved ids |
| MemcacheThreads.QuietStore | storage/memcache/memcache.go:79-111 | when no thread is inside, every document is listed and there are no more documents than the limit |
| MemcacheThreads.BackedIff | storage/memcache/memcache.go:79-111 | under every interleaving, what is listed or about to be has its document all through a run if and only if no deletion hits an id that another thread has set again and is about to list |
| MemcacheThreads.ListedHavePayloads | storage/memcache/memcache.go:79-111 | when no id is stored again while it is listed or a thread is busy with it, every listed id has its document in every interleaving, and at rest nothing else has one |
| MemcacheThreads.FreshIdsHavePayloads | storage/memcache/memcache.go:79-111 | the same for every interleaving of stores of pairwise distinct ids |
| MemcacheThreads.LosesPayload | storage/memcache/memcache.go:79-107 | three stores by three threads with a limit of one, after which one id is listed and no document is left |
| MemcacheThreads.AloneIsStore | storage/memcache/memcache.go:79-111 | an undisturbed thread has the effect of one `Store` call on document ids and index |
| MemcacheThreads.AloneRuns | storage/memcache/memcache.go:79-111 | storing alone is one of the machine's runs from any reachable state with the mutex free |
| RedisStorage.Storage.New | storage/redis/redis.go:34-63 | refuses a blank endpoint, otherwise a backend over what the server holds under the trimmed prefix, with the defaults for a blank prefix and a non-positive time to live |
| RedisStorage.Storage.Store | storage/redis/redis.go:66-93 | refused exactly for nil, an empty id or an unencodable document, with the first of these errors and before the server is asked; otherwise the pipeline runs command by command: document set, id pushed, index trimmed when there is a limit, expiry of the index set; each command has its own answer, and a command that is not answered makes the store fail |
| RedisStorage.Storage.Get | storage/redis/redis.go:96-112 | the document stored last under the id if it is alive, a miss if not, an error when the read is not answered |
| RedisStorage.Storage.List | storage/redis/redis.go:115-141 | an error when the range read is not answered, otherwise the documents of the first ids of the index, with the default limits, those missing, expired or unreadable skipped |
| RedisLaws.StoreEffect | storage/redis/redis.go:79-90 | unless the index expires under way, a pipeline sets the document, changes no other, and leaves the new id first in an index cut to the limit that lives for one time to live from the last command |
| RedisLaws.StoredLives | storage/redis/redis.go:79-141 | after such a pipeline the document is found until one time to live after its own command, and the new id heads the list until one time to live after the last command; later neither is |
| RedisLaws.ListedIff | storage/redis/redis.go:79-90 | after a completed pipeline the new id is listed if and only if the index did not expire between the push and the last command |
| RedisLaws.TornPipeline | storage/redis/redis.go:81-86 | a completed pipeline after which the new id is not listed |
| RedisLaws.NoFailure | storage/redis/redis.go:79-92 | when every command is answered a store succeeds with the effect the laws above are about |
| RedisLaws.FailuresAreContained | storage/redis/redis.go:79-92 | whichever commands fail or lose their answers, a store succeeds exactly if all are answered, and the documents are the old ones, with the new one unless setting it failed |
| RedisLaws.DanglingIff | storage/redis/redis.go:79-92 | a new id is written in the index without its document if and only if setting the document failed and the push did not, and the other way round |
| RedisLaws.RefusedSet | storage/redis/redis.go:80-88 | a store that fails because the document is refused, after which the id is listed and its document missing |
| RedisPipelines.EveryInterleaving | storage/redis/redis.go:79-90 | under every interleaving of commands the index is a prefix of the pushes newest first, keeps the newest `maxEntries` and exceeds them by at most the pipelines not yet trimmed; every pushed id has its document |
| RedisPipelines.QuietIndex | storage/redis/redis.go:79-90 | with no pipeline under way the index is exactly the newest pushes |
| RedisPipelines.AloneIsStore | storage/redis/redis.go:79-90 | an undisturbed pipeline has the effect of one `Store` call on document ids and index |
| Backends.MemoryIsNewest | storage_memory.go:63-77 | when the byte limit never binds, the in-memory store is the newest `maxEntries` of the latest view |
| Backends.MemcacheAgrees | storage/memcache/memcache.go:96-159 | re-stores included, the memcache index is the in-memory list backwards, and reads and listings agree for every id and every limit |
| Backends.RedisIndexAgreesIff | storage/redis/redis.go:80-86 | the redis index is the in-memory list backwards exactly if the last `maxEntries` stored ids are pairwise distinct |
| Backends.RedisAgrees | storage/redis/redis.go:115-141 | under that condition redis lists the same documents for every limit |
| Backends.RedisListAgreesIff | storage/redis/redis.go:80-141 | the full listings agree if and only if the last `maxEntries` stored ids are pairwise distinct |
| Clockwork.Clockwork.RegisterDataSource | clockwork.go:106-113 | sources are kept in order of registration |
| Clockwork.Clockwork.RegisterTrace | clockwork.go:143-152 | the first registration of a non-empty trace id wins and is the only one counted |
| Clockwork.Clockwork.UnregisterTrace | clockwork.go:154-161 | the trace id leaves the map, and the counter falls only if it was there |
| Clockwork.Clockwork.HasActiveTraces | clockwork.go:164-169 | true exactly if the counter is positive, which, while counter and map agree, means that some trace is registered |
| Clockwork.Clockwork.RecordLogForTraceWithTrace | clockwork.go:177-190 | the line goes to the collector registered under its trace id; otherwise nothing changes |
| Clockwork.Clockwork.RecordLogForSingleActiveWithTrace | clockwork.go:199-215 | with a counter of one, one registered collector takes the line and no other changes; otherwise none changes |
| Clockwork.Clockwork.CompleteRequest | clockwork.go:116-140 | response data, then every source's calls in order, then the snapshot's trace id and no other leaves the registry; on an enabled service an encodable snapshot that fits is found in the storage under the request's id, with the encoded snapshot as its text; a disabled service leaves the storage alone; what the storage answers is returned |
| Clockwork.ApplyAllIsRun | clockwork.go:121-128 | completing a request continues the collector's run, so every law about runs covers it |
| Clockwork.Clockwork.AllCallsSnoc | clockwork.go:121-128 | a source registered later resolves later |
| TraceRegistry.CounterInvariant | clockwork.go:143-161 | under every interleaving the counter plus additions under way minus subtractions under way is the size of the map |
| TraceRegistry.QuietCounter | clockwork.go:164-202 | with no update under way the counter is the size of the map, and one means exactly one active trace |
| TraceRegistry.RegisterAlone | clockwork.go:143-152 | an undisturbed registration has the effect of one `RegisterTrace` call on map and counter |
| TraceRegistry.UnregisterAlone | clockwork.go:135-161 | an undisturbed removal has the effect of one `unregisterTrace` call with the trace id the snapshot shows, whichever the collector was given last |
| TraceRegistry.PoliteRuns | clockwork.go:116-190 | with distinct open trace ids, and snapshots that show the ids their requests were registered under, the map leads from every registered trace to its request and nowhere else |
| TraceRegistry.LinesReachTheirRequest | clockwork.go:177-190 | in such a run the lookup of a traced line finds the registered request of its trace and no other, or none when none is registered, and all delivered lines are with their own trace |
| TraceRegistry.LineArrives | clockwork.go:177-190 | in every interleaving, a line whose trace is in the map when it is looked up is appended, exactly once, to what reached that collector and to nothing else, whatever happens between lookup and delivery |
| TraceRegistry.LineReachesItsRequest | clockwork.go:177-190 | and in such runs (distinct open trace ids, snapshots that show them) that collector is the one of the registered request of the trace |
| TraceRegistry.LoneLineArrives | clockwork.go:199-215 | in every interleaving, a line without a trace whose logger read a counter of one and then picked an entry is appended, exactly once, to what reached the collector picked and to nothing else |
| TraceRegistry.UnshownStays | clockwork.go:135-161 | a registered trace id that no snapshot shows is never removed |
| TraceRegistry.LongAlwaysStays | clockwork.go:135-137 | in particular one longer than the string limit, whatever collectors are given later |
| TraceRegistry.HeldIff | clockwork.go:143-161 | after every interleaving the map holds a trace id if and only if some registration under it was followed by no removal of a request that shows it |
| TraceRegistry.DrainsIff | clockwork.go:116-161 | after every interleaving, at any moment with no update under way, the map is empty and the counter zero if and only if every registration under an id was followed by such a removal; ids may be shared and set again |
| TraceRegistry.DrainsIfShown | clockwork.go:116-161 | the map drains if every traced request shows the id it was registered under, shared ids included, and only then when no request shows another's id |
| TraceRegistry.DrainsIffShort | clockwork.go:116-161 | when no collector is given a second trace id, the map is empty and the counter zero once all requests are done if and only if no trace id was longer than the string limit; ids may be shared |
| TraceRegistry.CounterLags | clockwork.go:148-151 | between the two steps of a registration a trace is active and the counter is zero |
| TraceRegistry.ResetTraceLeaks | clockwork.go:128-137 | a completed request whose collector was given another trace id before the snapshot leaves its entry and a counter of one |
| TraceRegistry.LongTraceLeaks | clockwork.go:116-161 | a completed request whose trace id is longer than the limit leaves its entry and a counter of one |
| TraceRegistry.ThirtyTwoDigitsLeak | clockwork.go:116-161 | such a run with a trace id of 32 digits and a limit of 16 |
| GoText.TrimTakesSpace | integrations/zap/zap.go:211-224 | trimming takes white space off both ends and nothing else, and what is left neither begins nor ends with it |
| GoText.SplitJoin | integrations/zap/zap.go:216 | splitting joined one-line texts gives them back |
| GoText.JoinSplit | integrations/zap/zap.go:216 | joining the split lines gives the text back, and no line contains a newline |
| GoText.AtoiPrint | integrations/zap/zap.go:253-256 | a printed number reads back exactly if it fits 64 bits |
| GoText.AtoiIff | integrations/zap/zap.go:253-256 | a text is read as the number `n` if and only if `n` fits 64 bits and the text is a sign, which a number that is not negative may lack, zeros, and the digits of `n` |
| ZapTrace.ParseZapStack | integrations/zap/zap.go:210-238 | the result is what the scan of the trimmed text's lines finds |
| ZapTrace.ScanLines | integrations/zap/zap.go:218-236 | the loop over line pairs, which skips the second line of every frame and stops at 12 |
| ZapTrace.ParseFileLineAt | integrations/zap/zap.go:240-258 | the last colon separates file and line, whatever colons the file contains |
| ZapTrace.PlaceIff | integrations/zap/zap.go:240-258 | a text is read as a file and a line number if and only if, one closing parenthesis aside, it is the file, a last colon and a number of that value |
| ZapTrace.FrameIff | integrations/zap/zap.go:219-234 | two lines are read as a frame if and only if the first is not blank and the second is a place; call, file, line and vendor mark are theirs |
| ZapTrace.ParsesAll | integrations/zap/zap.go:210-238 | whatever lines the text has, the frames are those of line pairs that do not overlap, in order, and every other pair between them is no frame, unless twelve were found before |
| ZapTrace.RoundTrip | integrations/zap/zap.go:210-258 | reading a printed stack gives its first 12 frames |
| ZapTrace.RoundTripIff | integrations/zap/zap.go:210-258 | a list of frames survives printing and reading exactly if it has at most 12 frames and each is printable |
| ZapTrace.ReadingIsStable | integrations/zap/zap.go:210-258 | for any text, printing what was read and reading it again changes nothing |
| ZapTrace.AnyTextIsBounded | integrations/zap/zap.go:217-237 | for any text, at most 12 frames, at most one for every two lines, all printable |
| ZapTrace.IsSameFrame | integrations/zap/zap.go:260-267 | true exactly if a frame with the same file, line and call is in the list |
| ZapTrace.BuildLogTrace | integrations/zap/zap.go:181-208 | the caller, then the first occurrences of the parsed frames in order, 12 in all; CallerFirst and StackFollows say so place by place |
| ZapTrace.TraceShape | integrations/zap/zap.go:181-208 | at most 12 frames, no place twice, and a parsed place is missing only when the trace is full |
| ZapTrace.CallerFirst | integrations/zap/zap.go:184-190 | a caller that is defined and names a file is the first frame, with no call, its file, line and vendor mark; otherwise the trace is the first occurrences of the parsed frames, cut to twelve |
| ZapTrace.StackFollows | integrations/zap/zap.go:197-205 | after the caller, if there is one, come the first occurrences of the parsed frames in order, as many as twelve places allow |
| ZapTrace.OccurrencesKept | integrations/zap/zap.go:197-205 | dropping repeated frames loses no place |
| ZapTrace.OccurrencesInOrder | integrations/zap/zap.go:197-205 | what is kept are the first frames of their places, in the order of the stack |
| ZapTrace.CallerHidesNothing | integrations/zap/zap.go:184-203 | the caller's frame never equals a parsed frame |
| ZapTrace.TraceSurvivesCollector | collector.go:450-469 | the collector keeps every frame of a non-empty zap trace, in order, and only shortens its texts |

## Left out

- MemcacheLaws.ListingOverTime: no store runs while a listing reads its documents.
- MemcacheLaws.RunKeepsInv: the calls are sequential and every command is answered; failures are the subject of FailuresAreContained, concurrent calls of MemcacheThreads.
- MemcacheThreads.EveryInterleaving: nothing expires and no server call fails; threads share one `Storage` value, whose mutex does not protect the index from other processes.
- RedisPipelines.EveryInterleaving: nothing expires and no command fails; expiry and failing commands are the subject of RedisLaws, for one pipeline at a time.
- Backends.MemcacheAgrees: stated where the byte limit never binds, `maxEntries` is positive, everything happens within one time to live of some start, and every command is answered, which is where the backends are meant to agree. The same goes for the redis theorems of that module.
- Collector.Collector.GetMetadata: snapshots are values, so that later calls do not change an earlier snapshot is built into the model; copying of slices and maps and the sharing of the header map are not modelled.
- Clockwork.Clockwork.CompleteRequest: one caller at a time, and the storage is the in-memory one; concurrent callers are the subject of TraceRegistry, where log lines delivered after the snapshot are possible and not claimed to be stored.
- TraceRegistry.LineReachesItsRequest: distinct open trace ids and snapshots that show the registered ids are assumed, here and in PoliteRuns and LinesReachTheirRequest; when requests share a trace id, the line reaches the first one registered (LineArrives), and a request that shows another's id removes that request's entry.
- TraceRegistry.DrainsIff: a request is registered at most once and before its snapshot, as the middleware does; `RegisterTrace` itself would accept more.
- ZapTrace.ParseZapStack: the body of the loop reads a pair of lines through one function, `FrameOf`, passed to the loop in `ScanLines`.
- Locks inside the methods of `InMemoryStorage` and `Collector`: each call is one atomic action, and a run is any sequence of calls.
- Nil receivers and nil arguments other than nil metadata.
- `AddDatabaseQuery`, `AddLogEntry` and the other forwarding wrappers.
- Generation of request ids, wall-clock formatting, memory statistics, table names guessed from SQL and the search for the calling file: these values are parameters.
- Integer widths: counters, sizes and durations are unbounded integers, except that the zap parser's line numbers are 64 bits; floating point is modelled by reals.
- Vendor paths are recognised with ASCII case folding only.
- Strings of the collector are sequences of bytes, strings of the zap parser sequences of characters; invalid UTF-8 is not modelled.
- Memory pressure in memcached, times to live over 30 days, and which error message a failing command gives: a read of something undecodable counts as a failed read.
- HTTP middleware, route registration, configuration loading, SQL and cache wrappers, the cleanup ticker, and the zap core's `Write`, field conversion and trace id search.
