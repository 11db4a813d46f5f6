# Models of the shared package

A Dafny 4.11 model of the self-contained state machines, caches, limiters and arithmetic of the
`shared/` package and of the migration runner `scripts/migrate.py`, with proofs of what they keep over
whole runs. `dafny verify dfyconfig.toml` checks everything.

Objects that the original updates in place are classes with the same fields; a ghost field holds the
history of what was done to them (a completion trace, a run of requests, a log of firings), and every
method is proved to leave the fields in the state that a function of the history gives. The theorems are
then about those functions, for every history. Where the original releases a lock or awaits, the model
has one method per uninterrupted step, so the histories are the interleavings of any number of callers.

| module | models |
|---|---|
| `CircuitBreaker`, `CircuitCalls` | admission and completion blocks of `shared/circuit_breaker.py`, any number of calls in flight, and what single calls can do |
| `StampedeProtection` | requests and background refreshes of `shared/cache_stampede_protection.py` against a Redis with expiry |
| `LossyTtlMap`, `MemoryCache`, `EmbeddingCache` | the two bounded caches, refining one map with lifetimes that forgets only what it drops |
| `CacheManager` | memory over Redis, with promotion, lost replies and other writers |
| `SlidingWindow`, `Overtaking`, `AiRateLimiter`, `AuthRateLimiter` | the two limiters, against ideal ones that remember every accepted request, for requests in any order |
| `AlertLog`, `AlertSamples`, `AlertRules`, `AlertManager` | firing, resolving, cooldown, window statistics over truncated samples, and what a rule says of them |
| `Pagination`, `PageWalks`, `PageChains`, `CursorAnswers`, `CursorWalks` | request parameters, links and cursors, and clients that follow them to the end |
| `Migrations` | migrate and rollback calls that may stop midway |
| `Texts`, `StableSort`, `ApiVersioning` | version order, printing, parsing and header negotiation |
| `LikeEscape` | pattern escaping against the LIKE predicate of section 8.5 of SQL-92 |
| `PoolSizing`, `TrendConfidence` | the pool-size recommendation iterated, and the fit behind the trend confidence |

## Where the code does something other than expected

- Successes of calls admitted before the circuit opened can close it again while the probe still runs: this
  can happen if and only if, when the probe is admitted, at least as many calls are in flight as successes
  are required (`CircuitCalls.LateSuccessesCanCloseIff`, with a run in `LateSuccessCloses`).
- `AIRateLimiter` reads the clock before it takes the lock (`shared/ai_validation.py:348`), so requests can
  overtake each other. A request then counts too little if and only if an accepted stamp still in its window
  was reached back beyond by a later one (`AiRateLimiter.UndercountsIff`), and the limit can be exceeded
  (`LateStampCanExceedLimit`). `MinuteIsBoundedIff` and `HourIsBoundedIff` say exactly when an accepted request
  keeps it, and `EveryWindowObeysIff` when every window of a run does; the bounds hold wherever nothing is
  overlooked, in particular for stamps in order.
- Users and operations that split one text at different colons share a bucket of `AIRateLimiter`, like "a:b"
  with "c" and "a" with "b:c" (`AiRateLimiter.BucketsSharedIff`); operations without a colon do not.
- The deque limiter keeps 1000 stamps, so limits above 1000 never deny (`AuthRateLimiter.ExactUpToDequeBound`).
- A lock holder slower than 30 seconds lets a second one in (`StampedeProtection.GrantedIffHolderOverdue`), and
  its delete removes the other's live lock if and only if it was overdue when the other asked
  (`OverdueDeleteHitsOther`, with a run in `OverdueDeleteCanHappen`).
- Overwriting an embedding does not count as a use of it, although the cache is called LRU
  (`EmbeddingCache.WriteKeepsTouchOrderIff`), and at capacity an overwrite still evicts.
- `MemoryCache.set` raises IndexError when the maximum is below 1, or is 1 and the key is present;
  `EmbeddingCache.set` raises KeyError when the maximum is below 1.
- A promoted value restarts its clock at 60 seconds when the answer of Redis arrives. It can be served 60
  seconds or more past its lifetime if and only if the Redis entry was gone by then
  (`CacheManager.CacheManager.PromotedOverrunsIff`, with a run in `CacheManager.LateAnswer`); answers that
  arrive in time never exceed the bound, however slow they are.
- A pool of a single busy connection never grows, because 1.5 truncates to 1
  (`PoolSizing.AtRestIffNotOverloaded`).
- A version with no prerelease and one with an empty prerelease print alike and are each above the other
  (`ApiVersioning.TotalIffNotConfusable`); a release sorts below its prereleases, unlike section 11 of
  Semantic Versioning 2.0.0.
- To see whether a version is acceptable, `shared/api_versioning.py:279-282` builds a `VersionManager`, whose
  constructor (169-171) uses versions as dictionary keys. `APIVersion` defines equality and no hash, so this
  raises TypeError whenever some version is supported, as in the default configuration. No supported version
  is ever negotiated; `ApiVersioning.NegotiationRaisesIff` says exactly when an exception escapes, and
  otherwise the answer is the default. `get_latest_version` (231-233) cannot be reached with a non-empty list
  for the same reason; `LatestIsGreatestIff` is about the maximum it takes. `IntendedNegotiation` and
  `SortedSearchIsBest` are about the intended acceptance test, which is membership in the list.
- A migrate fails if two pending files share a version, and only then or if a script fails
  (`Migrations.MigrateSucceedsIff`). But the failed call has recorded that version, so the next call skips both
  files, succeeds, and the second script never runs (`SecondOfTwoIsSkipped`).
- A rollback deletes rows and undoes no schema change, so a migrate after it runs scripts again that have run
  before; it restores the list if and only if none of them fails (`Migrations.RollbackThenMigrateRestoresIff`).
- A limit below 1 is replaced by 20 after it was cut to the maximum, so it can exceed a maximum below 20
  (`Pagination.LimitIsWithinMaximumIff`).
- The previous link of an offset below the limit leads to offset 0, so going back and on again does not
  return (`PageWalks.NextUndoesPreviousIff`); the last link misses the end of a walk that did not start on
  a whole number of pages (`PageWalks.LastLinkEndsWalkIff`); links drop blank query parameters.
- The filter for cursors (`shared/api_pagination.py:373-379`) calls `getattr` with one argument, which always
  raises, so as it is written every cursor is refused with status 400 and a client gets all rows if and only
  if they fit on the first page (`CursorAnswers.RefusesEveryCursor`). `CursorWalks` models the intended filter,
  which keeps the rows after the cursor, as lines 424-431 state it.
- The intended filter reads `id` (line 361), whatever field the cursor was made of. For any field, a client
  gets the rows cut into pages if and only if at each page boundary what the filter keeps starts like what is
  left (`CursorWalks.CursorPagesAreCutIff`); another field can repeat a page for ever
  (`OtherSortFieldRepeatsAPage`). For rows sorted by `id`, a walk loses the rest of a group of equal keys that
  a page boundary splits, and a row per page if the caller names the extra row as the last item
  (`CursorsVisitAllIff`, `NamingTheExtraRowVisitsAllIff`). Search requests share the extra row but have no way
  to the rest (`CursorAnswers.SearchServesAllIff`).

## Model

| member | source | states |
|---|---|---|
| `CircuitBreaker.CircuitBreaker.constructor` | shared/circuit_breaker.py:37-64 | A new breaker is closed with an empty trace. |
| `CircuitBreaker.CircuitBreaker.Admit` | shared/circuit_breaker.py:86-106 | The block before a call: it is rejected exactly when the circuit is open and some counted failure lies at most the timeout back; the fields again say what the longer trace says. |
| `CircuitBreaker.CircuitBreaker.RecordSuccess` | shared/circuit_breaker.py:115-126 | The block after a success, in whatever mode the breaker then is. |
| `CircuitBreaker.CircuitBreaker.RecordFailure` | shared/circuit_breaker.py:138-159 | The block after a counted failure, in whatever mode the breaker then is. |
| `CircuitBreaker.CountersMatchTrace` | shared/circuit_breaker.py:115-159 | For every trace: while closed the failure count is the length of the trailing run of failures and below the threshold; otherwise it is at least the threshold; the stored time is that of the latest failure. |
| `CircuitBreaker.OpensExactlyAtThreshold` | shared/circuit_breaker.py:136-159 | A closed breaker changes mode exactly when the trailing run of failures reaches the threshold, and then opens. |
| `CircuitBreaker.LatestFailureIsLatest` | shared/circuit_breaker.py:138-140 | Under a clock that does not go back, the stored failure time is the maximum over all failures of the trace. |
| `CircuitBreaker.AdmittedFromOpenIffQuiet` | shared/circuit_breaker.py:86-106 | An open breaker admits a call if and only if more than the timeout has passed since every failure counted so far, late ones included; the call makes it half-open. |
| `CircuitBreaker.RejectedIffOpenAndFailing` | shared/circuit_breaker.py:86-106 | In every mode a call is rejected if and only if the breaker is open and some failure of the trace lies at most the timeout back. |
| `CircuitBreaker.ModeFollows` | shared/circuit_breaker.py:86-159 | A half-open breaker reopens at a counted failure and at nothing else; an open one stays open but for an admitted call, which makes it half-open. |
| `CircuitBreaker.HalfOpenHistory` | shared/circuit_breaker.py:86-159 | While half-open there is a probe since which the breaker stayed half-open without a counted failure, and the success count is the number of successes since, whichever calls they belong to. |
| `CircuitBreaker.ClosesExactlyAfterSuccesses` | shared/circuit_breaker.py:115-145 | The breaker returns to closed if and only if a success completes exactly the required number since the latest entry to half-open, with no counted failure in between. |
| `CircuitCalls.CallsAreConserved` | shared/circuit_breaker.py:86-159 | Calls admitted are calls in flight plus calls completed, whatever the mode did meanwhile; the number in flight is that of the calls that are. |
| `CircuitCalls.LateSuccessesCanCloseIff` | shared/circuit_breaker.py:86-123 | When a probe is admitted, successes of calls admitted before it can close the circuit with the probe still in flight if and only if at least as many calls are in flight as successes are required. |
| `CircuitCalls.SuccessesCanFollow` | shared/circuit_breaker.py:115-126 | Different calls in flight can succeed one after the other, in any mode, and just they leave. |
| `CircuitCalls.SuccessesLand` | shared/circuit_breaker.py:115-126 | Each success of a possible continuation takes its own call out of flight. |
| `CircuitCalls.LateSuccessCloses` | shared/circuit_breaker.py:115-123 | A run in which call 2, admitted while closed, closes the circuit and exactly the probe, call 3, is still in flight. |
| `StampedeProtection.MutualExclusion` | shared/cache_stampede_protection.py:82-101 | In every interleaving whose lock holders finish within 30 seconds, at most one process is between the granted SET NX and the delete. |
| `StampedeProtection.HoldersOwnTheLockAlways` | shared/cache_stampede_protection.py:82-101 | In every such interleaving a process in the section owns the stored lock, which expires 30 seconds after it entered. |
| `StampedeProtection.DeletesOwnLock` | shared/cache_stampede_protection.py:100-101 | In every such interleaving the unconditional delete removes the deleter's own, live lock. |
| `StampedeProtection.GrantedIffHolderOverdue` | shared/cache_stampede_protection.py:83 | While p is in the section, another SET NX is granted if and only if p has been there for 30 seconds. |
| `StampedeProtection.OverdueDeleteHitsOther` | shared/cache_stampede_protection.py:83-101 | After any timely run, if q asks for the lock while p is about to delete it, p's delete removes q's live lock with q in the section if and only if p had been in the section for 30 seconds when q asked. |
| `StampedeProtection.OverdueDeleteCanHappen` | shared/cache_stampede_protection.py:83-101 | A run from the start in which it does. |
| `StampedeProtection.ServedValuesAreFresh` | shared/cache_stampede_protection.py:50-111 | In every interleaving of requests and refreshes, timely or not and whatever fails, a value served from the cache (first read or retry) was fetched earlier, then stored, and stored less than its lifetime ago. |
| `StampedeProtection.FreshnessAlways` | shared/cache_stampede_protection.py:50-142 | The invariant behind it: what is cached, in flight or served is recorded in the log. |
| `StampedeProtection.HandsAlwaysHold` | shared/cache_stampede_protection.py:80-142 | In every run, what a coroutine is about to store or to return is the value of its own latest fetch, with its own lifetime; it has one to return exactly when that fetch gave one, the lifetime is at least 1 and its store was answered. |
| `StampedeProtection.CacheIsLastWritten` | shared/cache_stampede_protection.py:88-98 | What is cached is what the latest effective store wrote: the value of that coroutine's fetch, expiring a lifetime after the fetch, and dropped by Redis a lifetime after the store. |
| `StampedeProtection.LockIsLastTaken` | shared/cache_stampede_protection.py:82-101 | The lock is that of the latest SET NX that took effect while none was held, for 30 seconds, unless a delete took effect since; lost replies undo neither. |
| `StampedeProtection.HitIsServedIff` | shared/cache_stampede_protection.py:49-76 | Whatever others do in between, a read that finds an entry returns it and touches neither lock nor cache if the entry has not expired when it is looked at, and else goes on to the lock. |
| `StampedeProtection.RefreshesInLastFifthIff` | shared/cache_stampede_protection.py:57-69 | An early refresh may start exactly when the entry has not expired and less than a fifth of the lifetime is left; it has the lifetime of its request. |
| `StampedeProtection.NoClientFetchesDirectly` | shared/cache_stampede_protection.py:39-46 | Without a client a request is one direct fetch. |
| `StampedeProtection.DirectFetchEnds` | shared/cache_stampede_protection.py:115-123 | A direct fetch ends the request, but one that raises inside the `try` is repeated outside. |
| `StampedeProtection.FailedFetchAndRefreshEnd` | shared/cache_stampede_protection.py:86-142 | A fetch in the section that raises leads to the delete without a value; a refresh ends with its fetch or its store. |
| `StampedeProtection.FailureFetchesDirectly` | shared/cache_stampede_protection.py:49-123 | After any command that raises, and after a section without a value, the value is fetched directly. |
| `StampedeProtection.ColdRequestGetsLock` | shared/cache_stampede_protection.py:49-85 | From any state, a request that finds nothing cached and nobody holding the lock gets the lock, and changes nothing else. |
| `StampedeProtection.FetcherFills` | shared/cache_stampede_protection.py:86-101 | From any state, a holder whose fetch gives v stores v, gives the lock back and has v to return. |
| `StampedeProtection.WaiterReadsAgain` | shared/cache_stampede_protection.py:102-118 | A request that meets another's lock is served what the second read finds, or fetches directly. |
| `StampedeProtection.StampedeCache.constructor` | shared/cache_stampede_protection.py:20-48 | Nothing is cached, locked or running. |
| `StampedeProtection.StampedeCache.BeginRequest` | shared/cache_stampede_protection.py:39-48 | A request starts as one more step of the run, or goes to a direct fetch if no Redis client can be had. |
| `StampedeProtection.StampedeCache.ReadCache` | shared/cache_stampede_protection.py:49-51 | The first read, with its failures, as one step of the run. |
| `StampedeProtection.StampedeCache.ExamineEntry` | shared/cache_stampede_protection.py:55-76 | The expiry test and the early refresh; a returned value is fresh at that moment. |
| `StampedeProtection.StampedeCache.AcquireLock` | shared/cache_stampede_protection.py:80-85 | SET NX with 30 seconds, also when the reply is lost. |
| `StampedeProtection.StampedeCache.FinishFetch` | shared/cache_stampede_protection.py:86-94 | A fetch in the section, in the fallback or in a refresh ends with a value or an exception; a direct one gives its value to the caller. |
| `StampedeProtection.StampedeCache.StoreEntry` | shared/cache_stampede_protection.py:91-98 | The setex of a request or refresh, which refuses lifetimes below 1. |
| `StampedeProtection.StampedeCache.ReleaseLock` | shared/cache_stampede_protection.py:99-101 | The delete in `finally`; returned is the value of the latest fetch, if there was one, the lifetime is at least 1, and store and delete were answered. |
| `StampedeProtection.StampedeCache.RetryRead` | shared/cache_stampede_protection.py:102-118 | The second read, which trusts Redis expiry alone; a returned value is still fresh. |
| `MemoryCache.MemoryCache.constructor` | shared/cache_manager.py:51-57 | An empty cache. |
| `MemoryCache.MemoryCache.Touch` | shared/cache_manager.py:69-74 | A hit moves the key to the end of the access order, counts as a touch, and leaves value and lifetime alone. |
| `MemoryCache.MemoryCache.Get` | shared/cache_manager.py:59-76 | The answer is the last value written and not dropped since, up to and including the end of its lifetime, and nothing otherwise; an expired entry is removed; hits and misses are counted. |
| `MemoryCache.MemoryCache.EvictOldest` | shared/cache_manager.py:84-88 | The victim is the least recently touched of the keys other than the one being set. |
| `MemoryCache.MemoryCache.Set` | shared/cache_manager.py:78-92 | Raises exactly when the maximum is below 1, or is 1 with the key present; else the key is stored last, and at capacity exactly one least recently touched other key goes; order, keys and touches stay in step. |
| `MemoryCache.MemoryCache.Remove` | shared/cache_manager.py:110-114 | Removes the key from entries and order alike. |
| `MemoryCache.MemoryCache.Delete` | shared/cache_manager.py:94-100 | Removes the key and says whether it was there. |
| `MemoryCache.MemoryCache.CleanupExpired` | shared/cache_manager.py:130-137 | Removes exactly the expired entries, and returns how many. |
| `MemoryCache.MemoryCache.Clear` | shared/cache_manager.py:102-108 | Back to the empty cache. |
| `MemoryCache.EvictFirst` | shared/cache_manager.py:84-88 | In an order sorted by last touch the first key is the least recently touched, and the rest is the order of the remaining keys. |
| `EmbeddingCache.EmbeddingCache.constructor` | shared/embedding_cache.py:29-37 | An empty cache. |
| `EmbeddingCache.EmbeddingCache.Get` | shared/embedding_cache.py:44-64 | The answer is the last value written and not dropped since, up to and including the end of its lifetime; a hit moves to the end, an expired entry goes. |
| `EmbeddingCache.EmbeddingCache.PopOldest` | shared/embedding_cache.py:66-75 | One turn of the eviction loop removes the first key of the order, which is the one whose last hit, or last write that found it absent, is the oldest. |
| `EmbeddingCache.EmbeddingCache.Set` | shared/embedding_cache.py:66-75 | Raises exactly when the maximum is below 1; at capacity that first key goes even when a present key is overwritten; an overwritten key keeps its place. |
| `EmbeddingCache.EmbeddingCache.Store` | shared/embedding_cache.py:72-75 | The write itself, below capacity. |
| `EmbeddingCache.EmbeddingCache.Invalidate` | shared/embedding_cache.py:77-83 | Removes the key and its place in the order. |
| `EmbeddingCache.FirstIsFirstPlaced` | shared/embedding_cache.py:44-75 | In every state a cache can be in, the first key is the one placed first, by its last hit or its last write while absent; it is also the least recently touched one unless it was overwritten since. |
| `EmbeddingCache.WriteKeepsTouchOrderIff` | shared/embedding_cache.py:66-75 | A write keeps the order sorted by last touch if and only if the key is new or already last. |
| `CacheManager.CacheManager.constructor` | shared/cache_manager.py:143-146 | Both tiers empty, no write recorded. |
| `CacheManager.CacheManager.GetMemory` | shared/cache_manager.py:152-156 | A value from memory was set for that key, and is less than 60 seconds past its lifetime, or exceeds that by no more than some late answer did. |
| `CacheManager.CacheManager.ReadRedis` | shared/cache_manager.py:159-163 | A value from Redis was set for that key and its lifetime is not over. |
| `CacheManager.CacheManager.Promote` | shared/cache_manager.py:164-169 | A value read from Redis gets 60 fresh seconds in memory; only an answer that arrives when its entry is gone adds to the overrun. |
| `CacheManager.CacheManager.PromotedOverrunsIff` | shared/cache_manager.py:164-169 | A promoted value can be served 60 seconds or more past the lifetime of its Redis entry if and only if the entry was gone when the answer arrived, and then exactly up to that delay. |
| `CacheManager.LateAnswer` | shared/cache_manager.py:148-177 | A run: set at 0 for 10 seconds, read at 9, answered at 20, served from memory at 75. |
| `CacheManager.CacheManager.SetMemory` | shared/cache_manager.py:190-192 | The memory half of a set, with whatever eviction it causes. |
| `CacheManager.CacheManager.SetRedis` | shared/cache_manager.py:194-204 | The Redis half of a set, also when it fails or its reply is lost. |
| `CacheManager.CacheManager.OthersWrite` | shared/cache_manager.py:194-198 | A set by another process sharing the server keeps the bounds. |
| `CacheManager.CacheManager.Get` | shared/cache_manager.py:148-177 | Memory wins, then Redis with promotion, else nothing; a served value comes from a recorded set and is less than 60 seconds past its lifetime, but for the overrun of late answers, or was alive when Redis was read; an answer in time adds no overrun. |
| `CacheManager.CacheManager.Set` | shared/cache_manager.py:179-204 | What reaches which tier and which writes are recorded; a missing or zero lifetime means the default. |
| `CacheManager.CacheManager.Delete` | shared/cache_manager.py:206-227 | The key leaves the chosen tiers; true exactly when one of them held it and said so. |
| `CacheManager.MemoryBackedAfterSet` | shared/cache_manager.py:148-198 | Storing one justified entry, with evictions, leaves every memory entry justified by a recorded set. |
| `CacheManager.BackedByMore` | shared/cache_manager.py:179-198 | Further writes justify no less. |
| `AiRateLimiter.AiRateLimiter.constructor` | shared/ai_validation.py:331-335 | No requests and no slots. |
| `AiRateLimiter.AiRateLimiter.CheckRateLimit` | shared/ai_validation.py:337-388 | The verdict, with reason and remaining counts, is that of all requests of this user for this operation; for operations without a colon, those of every other user or operation stay as they were. |
| `AiRateLimiter.AiRateLimiter.AcquireConcurrent` | shared/ai_validation.py:390-402 | A slot is granted exactly below the tier's limit. |
| `AiRateLimiter.AiRateLimiter.ReleaseConcurrent` | shared/ai_validation.py:404-410 | The counter goes down but not below 0. |
| `AiRateLimiter.BucketsSharedIff` | shared/ai_validation.py:349-350 | Two pairs of user and operation share a bucket if and only if they are the same, or split one text at different colons. |
| `AiRateLimiter.PlainOperationsHaveOwnBuckets` | shared/ai_validation.py:349-350 | Operations without a colon never share one with another user or operation. |
| `AiRateLimiter.VerdictOnHistory` | shared/ai_validation.py:363-388 | For stamps in any order: with m and h the requests accepted in the last minute and hour that are not overlooked, the request is accepted exactly when both are below its limits; otherwise the minute limit is reported if it is reached, and else the hour limit, with its count. |
| `AiRateLimiter.RemainingIsWhatFollows` | shared/ai_validation.py:385-388 | Of any number of repetitions of an accepted request at the same moment, exactly as many are accepted as the smaller of the two remaining counts it was told. |
| `AiRateLimiter.ListsHoldListed` | shared/ai_validation.py:352-361 | After every run, in whatever order stamps arrive, the two lists are the accepted stamps that no later request reached back beyond by a minute or an hour. |
| `AiRateLimiter.CountsAreConserved` | shared/ai_validation.py:352-361 | What a request counts plus what was overlooked is what a limiter remembering every accepted request counts. |
| `AiRateLimiter.UndercountsIff` | shared/ai_validation.py:348-361 | A request counts too little, per minute or hour, if and only if an accepted stamp still in its window was reached back beyond by a request after it. |
| `AiRateLimiter.RefinesIdealIff` | shared/ai_validation.py:352-388 | Exactly when the verdict, with its counts, is that of a limiter remembering every accepted request. |
| `AiRateLimiter.MinuteListIsSuffixIff` | shared/ai_validation.py:353-361 | The minute list is a suffix of the hour list if and only if no stamp is missing from it after one that is not. |
| `AiRateLimiter.MinuteIsBoundedIff` | shared/ai_validation.py:363-388 | A request accepted at t under m per minute is at most the m-th in (t-60, t] if and only if the stamps of the minute list in that window and the overlooked ones in it are fewer than m. |
| `AiRateLimiter.HourIsBoundedIff` | shared/ai_validation.py:371-388 | The same with h per hour, the hour list and (t-3600, t]. |
| `AiRateLimiter.AcceptanceIsBounded` | shared/ai_validation.py:363-388 | So with nothing overlooked in those windows it is at most the m-th and the h-th. |
| `AiRateLimiter.EveryWindowObeysIff` | shared/ai_validation.py:348-388 | For stamps in any order, every minute and hour of the run, wherever it starts, holds at most m and h accepted requests if and only if at each acceptance what was listed and what was overlooked left room in the windows it falls into. |
| `AiRateLimiter.EveryWindowObeysLimits` | shared/ai_validation.py:352-388 | For limits of at most m and h, if no accepted request overlooked anything, every minute and hour anywhere in the run holds at most m and h accepted requests. |
| `AiRateLimiter.InOrderNothingIsOverlooked` | shared/ai_validation.py:348-361 | Requests in the order of their stamps overlook nothing. |
| `AiRateLimiter.RefinesIdeal` | shared/ai_validation.py:348-388 | So for them every verdict is that of the limiter that remembers everything, and the minute list is a suffix of the hour list. |
| `AiRateLimiter.LateStampCanExceedLimit` | shared/ai_validation.py:348-352 | A concrete run with stamps out of order puts three accepted requests into a minute with limit 2. |
| `AiRateLimiter.SlotsCountHolders` | shared/ai_validation.py:390-410 | The counter never exceeds the largest limit used, and equals grants minus releases exactly when no release found it at 0. |
| `AuthRateLimiter.AuthRateLimiter.constructor` | shared/api_auth_middleware.py:150-152 | No deques. |
| `AuthRateLimiter.AuthRateLimiter.PopOldEntries` | shared/api_auth_middleware.py:560-581 | The popping loop removes exactly the leading stamps before the cutoff. |
| `AuthRateLimiter.AuthRateLimiter.CheckBucket` | shared/api_auth_middleware.py:560-612 | Prune, compare, append: the decision is that of the bucket's whole run. |
| `AuthRateLimiter.AuthRateLimiter.IsRateLimited` | shared/api_auth_middleware.py:560-581 | The check per client address. |
| `AuthRateLimiter.AuthRateLimiter.IsKeyRateLimited` | shared/api_auth_middleware.py:583-612 | The check per key, under the key's own limit if it has one. |
| `AuthRateLimiter.AuthRateLimiter.CleanupBucket` | shared/api_auth_middleware.py:958-977 | Prunes one deque, drops it if empty, changes no other. |
| `AuthRateLimiter.AuthRateLimiter.CleanupRateLimits` | shared/api_auth_middleware.py:958-977 | Every deque is pruned once, none is left empty, and the returned number is the number of stamps gone. |
| `AuthRateLimiter.DequeRepresentsHistory` | shared/api_auth_middleware.py:150-152 | After every run the deque, pruned, is what its bound of 1000 leaves of the accepted history in the window. |
| `AuthRateLimiter.DecidesOnHistory` | shared/api_auth_middleware.py:560-612 | A request is denied if and only if the accepted history in the closed window, counted up to 1000, reaches the limit. |
| `AuthRateLimiter.ExactUpToDequeBound` | shared/api_auth_middleware.py:150-152 | Up to 1000 the limit is exact; above it nothing is ever denied. |
| `AuthRateLimiter.EveryWindowObeysLimit` | shared/api_auth_middleware.py:560-612 | For limits up to 1000 every closed window of the configured width holds at most that many accepted requests. |
| `AuthRateLimiter.DequeIsWindow` | shared/api_auth_middleware.py:560-581 | For limits up to 1000 the deque is exactly the accepted history in the current window. |
| `AuthRateLimiter.CleanupsKeepHistory` | shared/api_auth_middleware.py:958-977 | With or without the cleanups, a run accepts the same requests. |
| `AuthRateLimiter.CleanupsChangeNoDecision` | shared/api_auth_middleware.py:958-977 | Cleanups anywhere in a run change no later decision. |
| `AlertLog.ActiveIffOneMoreFiring` | shared/alerting.py:413-444 | In every log an alert is active exactly when its firings exceed its resolutions by one; else they are equal. |
| `AlertLog.StartsWithFiring` | shared/alerting.py:413-444 | The first event of an alert is a firing. |
| `AlertLog.NeighboursAlternate` | shared/alerting.py:413-444 | Of two neighbouring events of an alert exactly one is a firing. |
| `AlertLog.FiringsKeepCooldown` | shared/alerting.py:388-391 | Any two firings of an alert are at least the later rule's cooldown apart. |
| `AlertSamples.StoredIsLongSuffix` | shared/alerting.py:351-355 | The stored samples are a suffix of all samples recorded, at least as long as the smaller of all and half the maximum. |
| `AlertSamples.WindowSurvivesIff` | shared/alerting.py:351-369 | Forgetting old samples leaves a window unchanged if and only if it holds no more samples than are left. |
| `AlertSamples.TruncationIsInvisible` | shared/alerting.py:351-369 | The truncated list and the full history agree on a window if and only if its samples fit in what is stored, hence always when they are at most half the maximum. |
| `AlertSamples.AverageIsBetweenExtremes` | shared/alerting.py:371-381 | Average times count is the sum, and lies between minimum and maximum. |
| `AlertSamples.ExtremesAreAttained` | shared/alerting.py:371-381 | Minimum and maximum bound all values and are among them. |
| `AlertSamples.SumIsAdditive` | shared/alerting.py:371-372 | The sum of samples recorded one after the other is the sum of the parts. |
| `AlertRules.NeverFires` | shared/alerting.py:61-78 | A disabled rule, or one with an unknown comparison, never fires. |
| `AlertRules.MinRuleFiresIff` | shared/alerting.py:61-78 | For each comparison, exactly when a rule on the minimum fires, said of the samples in its window: for gt, if and only if all of them are above the threshold. |
| `AlertRules.MaxRuleFiresIff` | shared/alerting.py:61-78 | The same for the maximum: for gt, if and only if some sample is above. |
| `AlertRules.AverageRuleFires` | shared/alerting.py:61-78 | A rule on the average, the default, fires when all samples lie on its side of the threshold and not when all lie on the other. |
| `AlertRules.CountAndSumValues` | shared/alerting.py:368-376 | The count and the sum are those of the samples; a statistic that does not exist, or without samples, is 0. |
| `AlertRules.AverageAndRateValues` | shared/alerting.py:374-381 | The average times the number of samples is their sum; the rate times the seconds of the window is their number. |
| `AlertRules.RuleValueOfView` | shared/alerting.py:363-408 | A rule looks at the samples not older than its window, of the metric its label names or else of its own name. |
| `AlertRules.SameIdIff` | shared/alerting.py:383-409 | Rules share an alert exactly when name and labels agree, the metric looked at being a label. |
| `AlertManager.AlertManager.constructor` | shared/alerting.py:313-322 | No rules, alerts or samples. |
| `AlertManager.AlertManager.AddRule` | shared/alerting.py:324-328 | A rule is stored under its name. |
| `AlertManager.AlertManager.RemoveRule` | shared/alerting.py:330-333 | A rule goes; its alerts stay. |
| `AlertManager.AlertManager.RecordMetric` | shared/alerting.py:339-355 | Appends and truncates; what is stored stays what truncation makes of the full history. |
| `AlertManager.AlertManager.GetWindowStats` | shared/alerting.py:357-381 | The statistics of the stored samples in the window, which are those of the full history when at most half the maximum lie in it. |
| `AlertManager.AlertManager.AddToHistory` | shared/alerting.py:448-452 | Appends; of 1001 alerts the newest 500 stay. |
| `AlertManager.AlertManager.Fire` | shared/alerting.py:423-438 | A new alert becomes active, starts the cooldown and enters history and log. |
| `AlertManager.AlertManager.Resolve` | shared/alerting.py:440-444 | The active alert is resolved in place, leaves the active ones and enters history and log. |
| `AlertManager.AlertManager.Decide` | shared/alerting.py:413-444 | The locked block, for a reading taken earlier: exactly when it fires, resolves or does nothing; every active alert is firing and the log keeps its laws whatever other evaluators did in between. |
| `AlertManager.AlertManager.EvaluateRule` | shared/alerting.py:400-444 | One rule of a pass, from statistics to decision. |
| `AlertManager.AlertManager.EvaluateRules` | shared/alerting.py:393-446 | A pass over all rules ends in the state the fold over them gives, and returns the new alerts. |
| `AlertManager.AlertManager.AcknowledgeAlert` | shared/alerting.py:468-476 | Marks the active alert with that id, and no other. |
| `AlertManager.PassOutcome` | shared/alerting.py:393-446 | After a pass an enabled rule's alert is active exactly when the condition holds and it was active before or out of cooldown. |
| `AlertManager.PassLeavesOthers` | shared/alerting.py:400-402 | A pass leaves alerts without an enabled rule as they were. |
| `AlertManager.LogStillMatches` | shared/alerting.py:413-444 | One more event keeps active alerts and cooldowns equal to what the log says. |
| `AlertManager.SamplesStillMatch` | shared/alerting.py:351-355 | One more sample keeps the stored lists equal to what truncation makes of all samples. |
| `Pagination.PaginationParams.constructor` | shared/api_pagination.py:73-80 | The fields end up in normal form. |
| `Pagination.NormalOnes` | shared/api_pagination.py:73-80 | Normal form is a fixed point, and means a limit of at least 1, an offset of at least 0, a page of at least 1; what is out of bounds becomes 20, 0 and 1. |
| `Pagination.ExtractParams` | shared/api_pagination.py:184-264 | Whatever the query says, a request that is not refused is in normal form and has a position of its kind. |
| `Pagination.RefusedIff` | shared/api_pagination.py:206-219 | A request is refused if and only if its limit, or the offset or page that is looked at, is no number. |
| `Pagination.LimitIsWithinMaximumIff` | shared/api_pagination.py:206-209 | The limit is the one asked for, cut to the maximum, and what is below 1 becomes 20; a positive maximum is kept if and only if at least 1 is asked for or it is at least 20. |
| `Pagination.PositionFollowsQuery` | shared/api_pagination.py:212-221 | A request starts where the query says, or at the beginning; only cursor requests have a cursor. |
| `Pagination.SortFollowsQuery` | shared/api_pagination.py:224-232 | Descending if and only if the query says desc in any case; a field that is not allowed is replaced by the first allowed one. |
| `Pagination.KindFollowsQuery` | shared/api_pagination.py:191-195 | The kind is the one the query names, and else the default. |
| `Pagination.ForbiddenKindIsReplaced` | shared/api_pagination.py:197-203 | Which kind replaces one that is not allowed. |
| `Pagination.MetadataFollows` | shared/api_pagination.py:278-309 | The number of pages is the least that holds all rows; nothing is said without a total, no link is given unless asked for, and a total without the position of its kind is the one failure. |
| `Pagination.PaginationMetadata.constructor` | shared/api_pagination.py:83-101 | Nothing known yet. |
| `Pagination.PaginationMetadata.GenerateNavigationUrls` | shared/api_pagination.py:337-358 | Fills in the four links the page walk is proved about. |
| `Pagination.CreateMetadata` | shared/api_pagination.py:278-309 | Totals, flags and links; a missing offset or page with a total is Python's TypeError. |
| `Pagination.LinkAsksFor` | shared/api_pagination.py:319-335 | Printing a position into a link and reading the link back gives the same request moved to that position: same kind, limit and order, and the same sort field unless it was blank. |
| `PageWalks.PageTestIsOffsetTest` | shared/api_pagination.py:293-302 | page < ceil(total/limit) if and only if page * limit < total. |
| `PageWalks.NextLink` | shared/api_pagination.py:296-351 | A next link is offered exactly while rows remain past this page, and starts where the page ends, in both modes. |
| `PageWalks.PreviousLink` | shared/api_pagination.py:297-353 | A previous link is offered exactly past the first row, and starts one page earlier or at 0. |
| `PageWalks.PreviousUndoesNext` | shared/api_pagination.py:338-353 | On and back is the same request. |
| `PageWalks.NextUndoesPreviousIff` | shared/api_pagination.py:338-353 | Back and on is the same request if and only if the page starts at least one limit in and before the end. |
| `PageWalks.LinksVisitEverything` | shared/api_pagination.py:513-519 | Following next links serves every row from the start on exactly once and in order, in full pages but the last, in ceil(rows/limit) pages. |
| `PageWalks.FirstLinkStartsFullWalk` | shared/api_pagination.py:344-354 | The first link of any answer starts a walk over all rows. |
| `PageWalks.PageModeMatchesOffsetMode` | shared/api_pagination.py:293-302 | An offset and a page request for the same rows lead through the same pages and agree on has_next and has_previous. |
| `PageWalks.AddressesLeadThroughWalk` | shared/api_pagination.py:319-351 | The walk through actual link addresses, printed and parsed back at every step, is that same walk. |
| `PageWalks.EndOfWalk` | shared/api_pagination.py:338-351 | The walk ends on a page that reaches the last row, a whole number of pages from its start. |
| `PageWalks.LastLink` | shared/api_pagination.py:345-356 | The last link starts at (total_pages - 1) * limit in both modes. |
| `PageWalks.LastLinkEndsWalkIff` | shared/api_pagination.py:345-356 | The last link leads to the end of the walk if and only if the walk started on a multiple of the limit, as page requests always do. |
| `CursorAnswers.CreatePaginatedResponse` | shared/api_pagination.py:529-557 | Drops the extra row and hands out a cursor exactly when a last item is given and limit + 1 rows came. |
| `CursorAnswers.SearchServesAllIff` | shared/api_pagination.py:521-555 | A search request gets up to limit + 1 rows and no link or cursor to more, so it serves everything if and only if there are at most that many. |
| `CursorAnswers.AnswerHoldsFirstPage` | shared/api_pagination.py:387-553 | The answer to a cursor request is the first page of what is left; has_next says whether more is left, and a cursor made of that row's field goes with it, exactly when the named row has the field. |
| `CursorAnswers.CursorRefusedIff` | shared/api_pagination.py:360-385 | A cursor request is refused exactly when its cursor is not blank and cannot be read; one that can keeps the rows with a key past it, and no others. |
| `CursorWalks.KeptIsTail` | shared/api_pagination.py:371-379 | On sorted rows the cursor filter skips the named row, those before it and those level with it, and nothing else. |
| `CursorAnswers.RefusesEveryCursor` | shared/api_pagination.py:366-385 | With the filter as it is written every cursor handed out is refused when it comes back, so a client gets all rows if and only if they fit on the first page. |
| `CursorWalks.CursorPagesAreCutIff` | shared/api_pagination.py:360-398 | For any sort field, a client that returns every cursor gets the rows cut into pages, and then stops, if and only if at each boundary the filter keeps what starts like the rows that are left. |
| `PageChains.ChainIsCutIff` | shared/api_pagination.py:360-398 | The same for any way of going on after a row. |
| `CursorWalks.BoundaryHoldsIff` | shared/api_pagination.py:371-379 | On rows sorted by id a boundary holds if and only if it does not split a tie. |
| `CursorWalks.CursorWalkIsPages` | shared/api_pagination.py:371-398 | On rows sorted by id, a client that sends back every cursor goes through the pages cut off the front of what is left. |
| `CursorWalks.CursorsVisitAllIff` | shared/api_pagination.py:541-553 | On rows sorted by id, naming the last kept row, a client gets the rows cut into pages, which is every row once and in order, if and only if no page ends between two rows with the same key. |
| `CursorWalks.EveryLimitIffDistinct` | shared/api_pagination.py:424-431 | That holds for every limit exactly when all keys differ. |
| `CursorWalks.NamingTheExtraRowVisitsAllIff` | shared/api_pagination.py:541-553 | Naming the extra row instead, it does so if and only if all rows fit on one page. |
| `CursorWalks.CursorsRepeatNothing` | shared/api_pagination.py:371-379 | Either way no row is served twice. |
| `CursorWalks.OtherSortFieldRepeatsAPage` | shared/api_pagination.py:360-398 | Rows sorted by another field than id for which the boundaries do not hold: the next cursor leads to the same page again. |
| `Migrations.FilesAscend` | scripts/migrate.py:56-74 | The file list is the matching names, each as often as it was there, with versions ascending. |
| `Migrations.NameGivesFileIff` | scripts/migrate.py:64-72 | A name gives a file if and only if it is three digits, an underscore, some text on one line and `.sql`; the digits are the version. |
| `Migrations.VersionOrderIsNumeric` | scripts/migrate.py:60-74 | On three digits the text order is the numeric order. |
| `Migrations.MigrationSystem.constructor` | scripts/migrate.py:29-31 | Nothing applied. |
| `Migrations.MigrationSystem.ApplyMigration` | scripts/migrate.py:89-116 | One transaction: script and row, or neither; a version already in the table fails too. |
| `Migrations.MigrationSystem.ApplyAll` | scripts/migrate.py:149-156 | The loop stops at the first failure and has recorded exactly the files before it, in order. |
| `Migrations.MigrationSystem.Migrate` | scripts/migrate.py:118-158 | A dry run changes nothing; else the table and the outcome are those of the specification. |
| `Migrations.MigrationSystem.Rollback` | scripts/migrate.py:160-195 | Deletes the versions above the target from the greatest down to the first that gets stuck. |
| `Migrations.MigrateAddsUpToTarget` | scripts/migrate.py:130-156 | For versions and targets of three digits: a migrate succeeds if and only if no pending script with a number up to the target's is broken; it then adds exactly those versions, all of them without a target, and on failure only some. |
| `Migrations.RollbackMeetsMigrate` | scripts/migrate.py:130-193 | For any target, rolling back to it leaves of all versions exactly those that migrating up to it adds to an empty table. |
| `Migrations.AppliedIsAlwaysPrefix` | scripts/migrate.py:118-195 | With distinct versions, after any run of migrates and rollbacks, failed ones included, the applied versions are a prefix of the sorted list. |
| `Migrations.MigrateIsIdempotent` | scripts/migrate.py:130-147 | Repeating a successful migrate does nothing. |
| `Migrations.InsertsAscend` | scripts/migrate.py:149-156 | A migrate records versions in ascending order. |
| `Migrations.RollbackStopsAtTarget` | scripts/migrate.py:165-193 | A rollback keeps everything up to the target, and removes everything above it if and only if no delete gets stuck. |
| `Migrations.RollbackThenMigrateRestoresIff` | scripts/migrate.py:118-195 | After any run and a rollback however far it got, a full migrate restores the whole list if and only if none of the scripts it has to run, or run again, fails. |
| `Migrations.MigrateSucceedsIff` | scripts/migrate.py:89-156 | For any files, table and target, a migrate succeeds if and only if no two pending files share a version and none of them is broken. |
| `Migrations.FullMigrateNeedsDistinctVersions` | scripts/migrate.py:89-156 | A full migrate from empty succeeds if and only if all versions are distinct, given no broken script. |
| `Migrations.SecondOfTwoIsSkipped` | scripts/migrate.py:130-156 | Two files with one version: the first full migrate fails after recording it, the second succeeds with nothing pending. |
| `ApiVersioning.LtIsStrict` | shared/api_versioning.py:64-92 | The less-than of versions is irreflexive and asymmetric. |
| `ApiVersioning.LtIsTransitive` | shared/api_versioning.py:64-92 | It is transitive. |
| `ApiVersioning.NumbersDecide` | shared/api_versioning.py:64-105 | A smaller major number is less, then a smaller minor one, then a smaller patch, by all four operators. |
| `ApiVersioning.PrereleasesDecide` | shared/api_versioning.py:64-92 | With the same numbers, prereleases compare as text. |
| `ApiVersioning.TotalIffNotConfusable` | shared/api_versioning.py:53-105 | The operators form a total order consistent with equality exactly on pairs that do not differ only in a missing against an empty prerelease. |
| `ApiVersioning.ReleaseSortsBelowItsPrereleases` | shared/api_versioning.py:64-92 | A release comes before its prereleases, and proper versions are never confusable. |
| `ApiVersioning.LatestIsGreatestIff` | shared/api_versioning.py:231-233 | The maximum of a list is one of it, and bounds all of it if and only if the list has no two confusable versions that nothing in the list is above. |
| `ApiVersioning.ParseOfText` | shared/api_versioning.py:44-125 | What parsing the text of any version with natural major and minor gives back. |
| `ApiVersioning.ThreeNumbersCount` | shared/api_versioning.py:107-125 | Two numbers are needed, the patch is 0 without a third, and further ones are not looked at. |
| `Texts.ParseIntIff` | shared/api_versioning.py:118-124 | A text reads as n if and only if it is a numeral for n with a sign or without, and white space around it or not. |
| `ApiVersioning.ParseInvertsTextIff` | shared/api_versioning.py:44-125 | Parsing undoes printing if and only if the numbers are natural and the prerelease, if any, is not blank and has no hyphen. |
| `ApiVersioning.TextIsInjective` | shared/api_versioning.py:44-51 | Such versions have distinct texts. |
| `ApiVersioning.SortedSearchIsBest` | shared/api_versioning.py:309-317 | Under the intended acceptance test, sorting by quality and taking the first supported offer is taking the earliest supported offer of greatest quality, or the default. |
| `ApiVersioning.BestAnswerIsUnique` | shared/api_versioning.py:309-317 | There is only one such answer. |
| `ApiVersioning.OffersOfPart` | shared/api_versioning.py:288-307 | An offer without a quality counts as 1 and one with a quality as what that reads as; two semicolons, or a quality that cannot be read, raise. |
| `ApiVersioning.OffersInOrder` | shared/api_versioning.py:288-307 | The offers come in the order of the header. |
| `ApiVersioning.IntendedNegotiation` | shared/api_versioning.py:254-317 | Under the intended acceptance test a supported parameter wins, then the best answer of the header, which raises exactly on a malformed quality, then the default. |
| `ApiVersioning.NegotiationRaisesIff` | shared/api_versioning.py:254-317 | As written, negotiation raises if and only if some version is supported and the parameter parses, or the header is looked at and has a malformed quality or, some version being supported, an offer that parses; otherwise the answer is the default. |
| `ApiVersioning.DefaultConfigRaises` | shared/api_versioning.py:128-171 | In the default configuration asking for v1.0, the default version, raises. |
| `ApiVersioning.ParseAcceptHeader` | shared/api_versioning.py:284-317 | The two loops over the header lead where the functions above say, for the acceptance test as written and as intended. |
| `ApiVersioning.NegotiateVersion` | shared/api_versioning.py:254-282 | Likewise for parameter, header and default. |
| `LikeEscape.ThreePassesAreOne` | shared/sql_utils.py:4-6 | The three successive replaces are one pass that escapes each special character. |
| `LikeEscape.EscapedMatchesOnlyItself` | shared/sql_utils.py:4-6 | As a LIKE pattern the escaped string matches a text if and only if it is that string, up to the case folding of ILIKE. |
| `LikeEscape.WrappedMatchesContaining` | shared/sql_utils.py:4-6 | Between two percent signs it matches exactly the texts that contain the string. |
| `LikeEscape.EscapingIsInjective` | shared/sql_utils.py:4-6 | Different strings get different patterns. |
| `PoolSizing.CalculateOptimalPoolSize` | shared/db_connection_pool.py:546-574 | The branches compute the recommendation the following laws are about. |
| `PoolSizing.PassesBecomeQuiet` | shared/db_connection_pool.py:494-544 | Under constant demand, passes that follow their own recommendations make none after as many as the widest configured range is wide, plus two, and never again. |
| `PoolSizing.OptimizePoolSizes` | shared/db_connection_pool.py:494-544 | The recommendations are those of all pools in order; exactly the recommended pools are resized and named when scaling is on. |
| `PoolSizing.UtilizationAsIntegers` | shared/db_connection_pool.py:546-574 | The utilization tests, as tests on whole numbers. |
| `PoolSizing.RecommendationByUtilization` | shared/db_connection_pool.py:546-574 | Half as much again above 90 percent utilization, a fifth more above 80, a fifth less below 30, and the same size between, rounded down and within the range. |
| `PoolSizing.LongWaitsGrow` | shared/db_connection_pool.py:565-569 | An average wait above 100 ms recommends the greater of 1.3 times the size, rounded down, and what a short wait would. |
| `PoolSizing.EmptyPoolGetsMinimum` | shared/db_connection_pool.py:546-574 | An empty pool is recommended the minimum. |
| `PoolSizing.OneStepIntoRange` | shared/db_connection_pool.py:546-574 | Every recommendation is within the configured range, or the maximum if that range is empty. |
| `PoolSizing.NeverTurnsBack` | shared/db_connection_pool.py:546-574 | Under constant demand a pool that grew does not shrink next, and the reverse. |
| `PoolSizing.SizesAreMonotone` | shared/db_connection_pool.py:546-574 | So the sizes move one way for ever. |
| `PoolSizing.ReachesFixedPoint` | shared/db_connection_pool.py:546-574 | And rest after as many steps as the range is wide, plus two. |
| `PoolSizing.FixedPoints` | shared/db_connection_pool.py:546-574 | Exactly which sizes are at rest. |
| `PoolSizing.AtRestIffNotOverloaded` | shared/db_connection_pool.py:546-574 | Below the maximum a size at rest is at most 80 percent used if and only if it is not a single busy connection. |
| `TrendConfidence.SpreadIsPositive` | shared/db_capacity_planner.py:459-462 | The denominator of the slope is positive for two or more points. |
| `TrendConfidence.ErrorsAreOrthogonal` | shared/db_capacity_planner.py:464-471 | For the least-squares slope the residual sum of squares is the total less slope times covariance. |
| `TrendConfidence.ResidualOfFit` | shared/db_capacity_planner.py:455-471 | The same of the fit the code computes. |
| `TrendConfidence.FitIsBest` | shared/db_capacity_planner.py:455-471 | No line has a smaller sum of squared errors than the fitted one. |
| `TrendConfidence.ResidualWithinTotal` | shared/db_capacity_planner.py:464-471 | For every series the residual sum of squares lies between 0 and the total one. |
| `TrendConfidence.CauchySchwarz` | shared/db_capacity_planner.py:455-471 | The squared covariance is at most the product of the two spreads. |
| `TrendConfidence.ClampIsIdle` | shared/db_capacity_planner.py:473-477 | The final clamp never changes anything; the confidence is the squared correlation, and 1 exactly for points on a line. |
| `TrendConfidence.EdgesOfConfidence` | shared/db_capacity_planner.py:446-475 | Fewer than three points have confidence 0, and a constant series has 1. |

## Left out

- Floating point: times, averages, utilization and the fit are exact reals; factors are exact fractions with Python's truncation; `math.ceil` of a quotient is exact.
- Clocks: they do not go back, and are parameters; alert samples are in order of their stamps.
- I/O: Redis, the database, HTTP, Slack, email, logging and metrics counters are abstract steps with a reply that may be lost; hashing, JSON and base64 are injective, corrupted cache entries do not occur, and cancellation of a coroutine is not modelled.
- CacheManager.CacheManager.constructor: asks for a memory size of at least 2, because below that `MemoryCache.set` can raise IndexError (`MemoryCache.MemoryCache.Set` says exactly when) and `CacheManager` would pass it on.
- The rest of `shared/cache_manager.py`: `clear_pattern`, `warm_cache`, statistics and the decorator; the Redis variant in `shared/embedding_cache.py`.
- Limiter reconfiguration: the width of the deque limiter's window is fixed over a run; tiers of the AI limiter are a parameter of each request.
- Alert rules: removing a rule leaves its active alert in the original too; the notification flag, labels and messages are not part of this model.
- AlertManager.AlertManager.EvaluateRules: one undisturbed pass; passes interleaved with other evaluators are sequences of `AlertManager.AlertManager.Decide` calls, which the log theorems cover.
- Pagination: a link is its position together with the query it was made from, and the rest of the address is fixed; search terms and filters are passed through and not modelled, nor are cursor expiry and its integrity hash; rows are compared by whole-number columns, where the original compares the column with the cursor's text; a query parameter named `self` is not part of this model.
- Page walks assume that the rows do not change between requests and that the caller passes their number as the total count; without a total count no next link is offered.
- Migrations: checksums, `status`, `validate`, concurrent runners, and the transaction machinery; a pattern's `$` also matches before a final newline in Python, and its `\d` matches other digits than 0-9.
- ApiVersioning: reading a quality as a number is a parameter that gives a real, so the qualities nan and inf are not part of this model; routing, deprecation dates and response adaptation are not modelled; `int` is modelled for ASCII text.
- PoolSizing: a resized pool has the recommended size at once; `_resize_pool` itself is not modelled.
- shared/api_rate_limiter.py, shared/api_response_cache.py and shared/db_connection_monitor.py do not load, shared/cache_strategies.py records no key, and shared/db_failover_manager.py consists of sleeps; none is part of this model.
