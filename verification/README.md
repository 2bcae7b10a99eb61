# Stats cache, capacity harness and Hero data: a verified model

A Dafny model of a FastAPI service template and of the load-test harness that ships with it.
`dafny verify dfyconfig.toml` verifies the whole project.

The service keeps aggregate statistics in a cache that every replica invalidates from a lossy
stream of CRUD events. The model has three parts.

* **Cache.** `CacheHistory` says what a lookup may answer. `StatsCaches` proves the in-process
  dict and the Redis key space against it, with the batched scan-and-unlink loop running while
  other replicas of any version store and invalidate and Redis fails. `Glob` and `Batches` are the pattern and the batches.
  `InvalidationTask` is the background loop of one replica, with its lifespan, its broker
  session, writers and readers, as one transition system whose runs are unbounded; `Composition`
  ties its invalidation to the one of `StatsCaches`.
* **Capacity harness.** `CapacityRamp` is the step machine, `CapacityRuns` what holds of all its
  runs, `LoadWindows` the counters and ceilings, `TokenProtocol` the shared access token under
  all interleavings (and the class that implements it), `Sampler` the percentiles and the CPU
  account.
* **Data.** `HeroViews` and `HeroMigration` relate the deprecated and the current Hero, `Purge`
  deletes archived rows, `SecurityTxt` and `Timestamps` print and read back an RFC 9116 file.

## What the code does not keep

Each of these is a theorem, with a concrete run or input, or the exact condition, or both.

* A close of the event iterator that raises while a cancellation passes through it is caught by
  the loop's own `except Exception`, and so is any library call that turns a cancellation into an
  error of its own; the cancellation is gone and shutdown waits, until it is itself cancelled, for
  a loop that goes on serving, although its documentation says that cancellation propagates
  (`RaisingCloseLosesTheCancellation`, `SwallowingInvalidationLosesTheCancellation`,
  `CancellationIsDelivered`, `LostCancellationNeverEnds`, `SecondCancellationIsOnItsWay`).
* A connection that drops unnoticed leaves the loop idle with a write nobody invalidated for
  (`UnnoticedDropLosesAWrite`; `NoLostWrite` has the condition). The TTL then bounds staleness,
  counted from the store: a slow reader adds its own time (`BoundedStaleness`).
* The warm-up counts from a step's nominal start, so a step that begins late, be it by the
  fraction of a second between two ticks, can have less of it or none, although the harness
  documents it as discarded from every step (`WarmupIsGivenIffOnTime`, `LeastWarmup`,
  `WarmupCanBeSkipped`). A step for which no tick falls between the end of that warm-up and the
  tick that records it fails without having been measured (`StepIsMeasuredIff`,
  `StepCanGoUnmeasured`).
* A `:` in a version, resource or key breaks the exactness of invalidation, and nothing else does
  (`HitsAreOwnIffColonFree`, `KeyIsOwnIffColonFree`, `ColonsBreakExactness`).
* A v1 client that echoes the superpower it was shown erases a hero's other powers
  (`EchoKeepsPowersIffSingle`).
* Between the store of a token and that of its refresh time another caller can be handed the token
  on its predecessor's time, wherever callers can interleave there (`FreshTokenOnOldTime`,
  `HandedOutIffFresh`).
* Several re-logins follow one rejected token exactly when the fresh one is due again at the
  second check (`DueTokenIsReplacedTwice`, `ReloginAgainIffDue`, `SecondReloginOnlyWhenDue`).
* The `security.txt` expiry check allows 366 days where its message says one year; the model
  follows the check (`AcceptsMoreThanAYear`).

## What is assumed

* Redis: its glob matcher (`Glob.Matches`); `SCAN` yields only matching keys, perhaps repeatedly,
  and, if it ends, every matching key present throughout; a key set with `ex` is readable until
  it expires. An error may come back before or after the failing unlink took effect.
* Broker: while connected every event is queued, in order; a dropped session gets no more and may
  lose what was queued. A write and its event are one step. A subscribe that does not return
  opens nothing; closing an iterator releases it however it ends. Any call may let a cancellation
  through or consume it; only `asyncio.sleep` always lets it through.
  A lifespan that is cancelled while it awaits the loop passes the cancellation on.
* Locust: counters are cumulative, failures are among the requests, and (where it says so) its
  total counts what its entries count. Its percentile function is a parameter. One clock reading
  a tick.
* Identity provider: tokens are not empty and never issued twice. A user rejects only a token it
  was given. The check of the cached token is one step, as greenlets switch only on I/O.
* Python and pydantic: `str.isprintable` holds of no line feed and of no white space but the
  space; `model_dump(exclude_unset=True)` lists the fields that were set.
* CRUD library and databases: a create stores the given fields, an update those that were set, a
  delete archives, a restore undoes that, neither changing anything else; updates and deletes
  reach only the caller's own records that are not archived, and locked ones only by an update
  that unlocks; a restore reaches the caller's own. DDL is transactional; one mapped class per
  table.
* Arithmetic is exact (`real` and unbounded `int`) where the code uses floats. The caches' clocks
  are integers.

## Model

| member | source | states |
|---|---|---|
| `InvalidationTask.NoLostWrite` | src/app/cache.py:179-191 | in every run, with any pattern of failed subscribes, stream errors, stream ends, disconnects and cancellation: a replica waiting with nothing queued and still connected has begun and finished an invalidation after every write published so far; if not connected it has done so exactly when no event was lost of a write published since its last invalidation began; and unless that invalidation swallowed a Redis error, it was effective |
| `InvalidationTask.NoLostWriteInTheRun` | src/app/cache.py:179-191 | the same of the run itself: if it ends idle on a live connection, some invalidation in it began after every write of the run and returned |
| `InvalidationTask.Recovers` | src/app/cache.py:179-191 | it comes back: from every reachable serving state, after whatever failures, at most six steps in which nothing fails lead to a live connection with an effective invalidation after every write; the stream need not end first unless the session is gone, or the loop is idle after an invalidation that swallowed its error |
| `InvalidationTask.CalmStepsLeadToWaiting` | src/app/cache.py:179-191 | a serving loop that is not waiting can take a step in which nothing fails, and each such step brings it nearer to waiting |
| `InvalidationTask.AttemptsAreSpaced` | src/app/cache.py:179-191 | in every run a sleep lies between two attempts to subscribe, and every sleep that has led to no attempt yet is the last |
| `InvalidationTask.UnnoticedDropLosesAWrite` | src/app/cache.py:179-191 | why the connection matters: a reachable state in which the client has not noticed a drop, waits idle, and a published write has had no invalidation |
| `InvalidationTask.SwappedLoopLosesAWrite` | src/app/cache.py:181-185 | why subscribing comes first: with the two calls swapped the loop can sit idle on a live connection with a write nobody invalidated for |
| `InvalidationTask.BoundedStaleness` | src/app/cache.py:128-144 | a hit that misses a write was computed before it; if an effective invalidation followed the write, the body was stored after that invalidation began; and in any case the write is younger than the TTL plus the time the reader took, even if every invalidation is lost |
| `InvalidationTask.IdleCacheIsFreshButForRaces` | src/app/cache.py:157-191 | idle, connected, last invalidation effective: a stale body can only come from a reader that was computing while its write was published and stored after the invalidation began |
| `InvalidationTask.StaleHitHappens` | src/app/cache.py:157-191 | a reachable settled state with a hit that misses a write although an effective invalidation followed it |
| `InvalidationTask.OneIteratorAtATime` | src/app/cache.py:179-191 | at most one event iterator is open, exactly while the invalidation loop is inside its block; each is closed once; none is open while sleeping or subscribing; the Redis client is closed only after the loop has ended |
| `InvalidationTask.NothingAfterClientClose` | src/app/main.py:76-83 | once the Redis client is closed the loop takes no further step in any continuation, so it touches no cache |
| `InvalidationTask.CancellationIsDelivered` | src/app/main.py:76-83 | while shutting down, the loop is ended or on its way out if and only if, of its latest cancellation, no close raised while it passed through and no library call consumed it |
| `InvalidationTask.CancelledTaskEnds` | src/app/cache.py:179-191 | every step of a loop on its way out brings its end nearer, except a close that raises and a call that consumes the cancellation, which lose it |
| `InvalidationTask.RaisingCloseLosesTheCancellation` | src/app/cache.py:184-191 | the documented "cancellation propagates" fails: a reachable state in which the lifespan is awaiting the loop, and the loop is back to waiting for events with no cancellation pending |
| `InvalidationTask.LostCancellationNeverEnds` | src/app/main.py:76-83 | once the cancellation is lost no continuation ends the loop or closes the Redis client, so shutdown waits, unless it is itself cancelled |
| `InvalidationTask.SecondCancellationIsOnItsWay` | src/app/main.py:76-83 | a second cancellation, which the awaiting lifespan passes on, puts the loop on its way out again |
| `InvalidationTask.SwallowingInvalidationLosesTheCancellation` | src/app/cache.py:184-187 | a reachable state in which an invalidation took the cancellation for a failure of its own and the loop waits for events, with the lifespan awaiting it |
| `InvalidationTask.StepKeepsInv` | src/app/cache.py:179-191 | every step of the loop, its owner, the broker, writers and readers keeps the lifetime, coverage, order and cache invariants |
| `InvalidationTask.ReachableInv` | src/app/cache.py:157-191 | so every reachable state of an unbounded run has them |
| `StatsCaches.InMemoryStatsCache.Get` | src/app/cache.py:128-133 | returns exactly what the history of stores and invalidations answers at this time |
| `StatsCaches.InMemoryStatsCache.Set` | src/app/cache.py:135-140 | the nested dict now stands for the history with one more store |
| `StatsCaches.InMemoryStatsCache.Invalidate` | src/app/cache.py:142-144 | the nested dict now stands for the history with one more invalidation |
| `StatsCaches.RedisStatsCache.Get` | src/app/cache.py:78-86 | on a key space shared by replicas of any version: never answers anything the shared history does not; answers exactly as the history does when Redis is up and no entry was lost; a Redis failure is a miss |
| `StatsCaches.RedisStatsCache.Set` | src/app/cache.py:88-93 | the shared key space stands for the history with one more store, whatever characters the key holds; a Redis failure changes nothing |
| `StatsCaches.RedisStatsCache.ScanAndUnlink` | src/app/cache.py:98-107 | scanning while other replicas store and invalidate, keys are lost and time passes, with a Redis error at any scan or unlink: the unlinked batches are a prefix of the exact batches of the yielded keys, all of them when nothing raised; precisely the keys of those batches are gone, but for keys set again meanwhile; no non-matching key is touched; after a complete scan whatever still matches was stored meanwhile |
| `StatsCaches.RedisStatsCache.Invalidate` | src/app/cache.py:95-109 | removes every entry of the resource present for the whole scan, across versions, and touches nothing else; with other replicas storing and invalidating all the while, nothing wrong is left, and nothing is missing but perhaps what was stored for the resource meanwhile and what was lost meanwhile of other resources, so that with losses of this resource alone, as concurrent invalidations of it cause, and no store of it the answers are exact; in the history it stands where it began; on an error part-way entries stay right though perhaps missing |
| `StatsCaches.Redis.Advance` | src/app/cache.py:88-93 | expiry by `ex=` removes an entry exactly when the history stops answering with it |
| `StatsCaches.OthersKeepBonds` | src/app/cache.py:88-109 | whatever other replicas store, invalidate or let expire during a scan, of any version, keeps the bond to the history: never wrong, and exact if no key is lost |
| `StatsCaches.CachesAgree` | src/app/cache.py:61-144 | after the same operations the two caches hold the same live entry for every colon-free resource and key, whatever other versions did to the shared server |
| `Composition.RedisLeavesNoMore` | src/app/cache.py:95-109 | the loop's model of an effective invalidation is what the Redis cache does: whatever the real one leaves of the resource, the model leaves, so every entry the model takes as gone is gone |
| `CacheHistory.AnswerIsTheStandingStore` | src/app/cache.py:128-144 | the history answers with a body exactly when some store of that version, resource and key holds it, was made strictly less than its TTL ago, and was neither replaced nor invalidated since |
| `CacheHistory.OtherVersionsDoNotShow` | src/app/cache.py:75-86 | a lookup of one version is answered from that version's stores and the invalidations alone |
| `Glob.PatternIsExact` | src/app/cache.py:97 | for all resources and strings, the invalidation pattern matches exactly `stats-cache:` a `:` resource `:` b for some a and b |
| `Glob.OnTheWire` | src/app/cache.py:75-97 | the text of the keys and of the pattern |
| `Glob.EscapedIsLiteral` | src/app/cache.py:56-58 | an escaped text matches itself and nothing else, whatever pattern follows it |
| `Glob.PatternHitsOwnKeysOnly` | src/app/cache.py:75-76 | a key of colon-free parts is hit exactly when its resource is the invalidated one, whatever its version |
| `Glob.PatternHitsEveryVersion` | src/app/cache.py:95-97 | every version of every key of the resource is hit, colons or not |
| `Glob.KeyIsInjective` | src/app/cache.py:75-76 | a colon-free version, resource and key have a Redis key no other triple has |
| `Glob.HitsAreOwnIffColonFree` | src/app/cache.py:75-97 | the invalidations that hit a key are exactly those of its own resource if and only if version, resource and key hold no colon |
| `Glob.KeyIsOwnIffColonFree` | src/app/cache.py:75-76 | no other version, resource and key share a Redis key if and only if none of the three holds a colon |
| `Glob.ColonsBreakExactness` | src/app/cache.py:75-76 | an example: with a colon in a key, invalidating one resource drops an entry of another and two entries share a key |
| `Glob.UnescapedPatternOverreaches` | src/app/cache.py:56-58 | without the escape a name with a metacharacter would hit its neighbours |
| `Batches.ChunksAreExact` | src/app/cache.py:99-107 | the batches concatenate to exactly the scanned keys, none is empty or over the limit, all but the last are full, and there are as many as the ceiling quotient |
| `Batches.FullBatchesLead` | src/app/cache.py:99-107 | full batches taken while streaming lead the batches of the whole stream |
| `TokenProtocol.LoginsNeverOverlap` | tests/perf/locustfile.py:520-529 | over all interleavings of any number of users, at most one is between the second check and the release of the lock |
| `TokenProtocol.AnswersAreFresh` | tests/perf/locustfile.py:514-529 | every token handed out was issued, is not empty and is not the one its caller rejected |
| `TokenProtocol.HandedOutIffFresh` | tests/perf/locustfile.py:514-533 | at either check a caller is handed the cached token, without a login, if and only if it does not reject that token and less than four fifths of the lifetime of the last lease has passed; that is the token's own lease unless its refresh time is still to be stored |
| `TokenProtocol.TokenServesItsLifetime` | tests/perf/locustfile.py:514-533 | a token fetched with some lifetime is what every caller who does not reject it gets, without a login, until four fifths of that lifetime have passed; everyone else logs in, counted as `relogin` if a token was rejected and as `refresh` if not, or fails with nothing changed |
| `TokenProtocol.FirstGetLogsIn` | tests/perf/locustfile.py:507-529 | with no token yet the first caller logs in, counted as `login` |
| `TokenProtocol.FreshTokenOnOldTime` | tests/perf/locustfile.py:526-527 | a reachable state in which a caller is handed a token with no lifetime left, between the store of the token and that of its refresh time |
| `TokenProtocol.OneReplacementPerRejectedToken` | tests/perf/locustfile.py:514-529 | however many users reject a token, once one of them has an answer exactly one login has replaced that token |
| `TokenProtocol.OneReloginPerRejectedToken` | tests/perf/locustfile.py:514-533 | however many users reject a token, once one of them has an answer exactly one re-login was made for it, if none of the logins concerned found a token that was due anyway |
| `TokenProtocol.SecondReloginOnlyWhenDue` | tests/perf/locustfile.py:514-533 | of two re-logins for the same rejected token one happened with a cached token that was due for renewal anyway |
| `TokenProtocol.ReloginAgainIffDue` | tests/perf/locustfile.py:522-533 | a user bringing a rejected token that a login already answered for logs in again if and only if, at the check under the lock, the cached token is due |
| `TokenProtocol.DueTokenIsReplacedTwice` | tests/perf/locustfile.py:514-533 | a run with two re-logins for one rejected token: with no lifetime left, its replacement is replaced too |
| `TokenProtocol.CountersAddUp` | tests/perf/locustfile.py:525-529 | the counters add up to the successful logins (less one whose holder has yet to count it), at most one is counted as `login`, and it is the first |
| `TokenProtocol.FailedLoginChangesNothing` | tests/perf/locustfile.py:522-529 | a failing login leaves token, refresh time and counters as they were and frees the lock; anything else that changes them is done by the lock holder |
| `TokenProtocol.SomeoneCanStep` | tests/perf/locustfile.py:514-529 | no deadlock: any user inside `get` can step, or the holder of the lock can |
| `TokenProtocol.TokenCache.Get` | tests/perf/locustfile.py:514-529 | the class method computes the solo outcome: hand out, replace, or raise with nothing changed |
| `TokenProtocol.SoloGet` | tests/perf/locustfile.py:514-529 | the interleaved protocol, run by one user without interference, ends where that method does |
| `TokenProtocol.RunKeepsInv` | tests/perf/locustfile.py:507-533 | every run keeps the lock, token-chain, answer and counter invariants |
| `TokenProtocol.ReplacedOnce` | tests/perf/locustfile.py:526 | logins form a chain: every issued token but the last was replaced exactly once |
| `LoadWindows.TakeSnapshot` | tests/perf/locustfile.py:161-174 | under every path the snapshot has the requests and failures of all its entries together, and every response time as often as they do; the total is one more entry, under `Aggregated` |
| `LoadWindows.MergeIgnoresOrder` | tests/perf/locustfile.py:166-173 | merged entries do not depend on their order |
| `LoadWindows.SnapshotIgnoresOrder` | tests/perf/locustfile.py:166-173 | two snapshots of the same entries in any order are the same |
| `LoadWindows.SnapshotIsFull` | tests/perf/locustfile.py:166-173 | if every entry has one response time per request, so has every path of the snapshot |
| `LoadWindows.WindowIsFull` | tests/perf/locustfile.py:190-196 | and so has every window: as many response times as requests |
| `LoadWindows.TakenTotalsAgree` | tests/perf/locustfile.py:161-174 | if the total counts what the entries count, then in the snapshot the aggregate counts what the endpoints count, however entries share paths |
| `LoadWindows.Window` | tests/perf/locustfile.py:187-205 | exactly the paths with new requests, each with its difference |
| `LoadWindows.WindowIsExact` | tests/perf/locustfile.py:190-204 | between cumulative snapshots: exactly the paths with new requests; what was there plus the window is what is there, for requests, failures and the response times whose percentiles are reported; the rate times the seconds is the request count; the error rate is the new failures over the new requests, between 0 and 1 |
| `LoadWindows.WindowsTelescope` | tests/perf/locustfile.py:190-195 | windows over three snapshots add up for requests, failures and histograms |
| `LoadWindows.AggregateRateIsBetween` | tests/perf/locustfile.py:187-205 | any bound, above or below, that every endpoint error rate keeps, the aggregate error rate keeps |
| `LoadWindows.EvaluateStep` | tests/perf/locustfile.py:208-240 | lists exactly the breached ceilings, in figures: p95 over 50 ms for `/health/live` and 200 ms for everything else, p99 over that times the factor, latency only from the minimum sample count on but always for the aggregate, and error rates always; the list is empty exactly when something was measured and all of it is in bounds; `checked` covers exactly the endpoints, by sample count |
| `LoadWindows.AggregateBreachHasAnEndpoint` | tests/perf/locustfile.py:219-240 | an aggregate error-rate breach always comes with an endpoint error-rate breach |
| `CapacityRamp.NewShape` | tests/perf/locustfile.py:253-271 | construction fails exactly on settings that make no ramp |
| `CapacityRamp.CapacityShape.FinishStep` | tests/perf/locustfile.py:277-302 | one more result, describing exactly the missed ceilings and every endpoint of its window; earlier results untouched; window closed; failure remembered |
| `CapacityRamp.CapacityShape.OnTick` | tests/perf/locustfile.py:304-317 | one tick moves the ramp, and replies, as the step function does about which the run theorems are proved |
| `CapacityRuns.RampClimbs` | tests/perf/locustfile.py:268-275 | the first step runs `step_users`, or the maximum if that is fewer; every next step but the last adds exactly `step_users`, the last adds 1 to `step_users`; counts strictly increase, and a step runs exactly the maximum if and only if it is the last |
| `CapacityRuns.RampIsBounded` | tests/perf/locustfile.py:304-317 | over every run: each tick records at most one step and keeps those recorded, never more steps than exist or than whole step durations elapsed, step k ran the users of k, and the failure flag says whether a step failed |
| `CapacityRuns.TickRecordsIff` | tests/perf/locustfile.py:306-312 | a tick records a step if and only if the run time has reached the end of the current one |
| `CapacityRuns.RunEnds` | tests/perf/locustfile.py:304-317 | every tick past the nominal end of the last step records a step, so there are at most as many of them as steps |
| `CapacityRuns.EarlyStopVerdict` | tests/perf/locustfile.py:391-395 | when stopping early only the last recorded step can have failed, and the verdict is the user count of the longest passing prefix (0 if the first failed) |
| `CapacityRuns.FullRunVerdict` | tests/perf/locustfile.py:391-395 | in every mode the verdict is the user count of the last passing step |
| `CapacityRuns.WindowsAreDisjoint` | tests/perf/locustfile.py:277-317 | over every run the measurement windows lie one after the other, open no earlier than nominal start plus warm-up, and a step counts exactly the requests of its window, at their rate over the time the window was open |
| `CapacityRuns.RequestsAreConserved` | tests/perf/locustfile.py:187-205 | each request counts in at most one step: the steps' requests and those outside every window sum to the final total |
| `CapacityRuns.WarmupIsGivenIffOnTime` | tests/perf/locustfile.py:315-316 | for any legal run whose current step is not measured yet, or has just begun: the step began no sooner than its nominal start, and every legal way to go on measures it no sooner than a whole warm-up after the tick that began it if and only if there is no warm-up or it began at its nominal start |
| `CapacityRuns.LeastWarmup` | tests/perf/locustfile.py:315-316 | how much warm-up a step is sure of: the warm-up less the time it began late, or none; no way to go on gives less, and one gives just that |
| `CapacityRuns.WarmupCanBeSkipped` | tests/perf/locustfile.py:304-317 | a run whose second step is measured from the moment it began, warm-up or not |
| `CapacityRuns.StepIsMeasuredIff` | tests/perf/locustfile.py:277-317 | a recorded step was measured if and only if the tick before the one that recorded it came after its nominal warm-up; otherwise it is recorded as failed |
| `CapacityRuns.StepCanGoUnmeasured` | tests/perf/locustfile.py:277-317 | a run that records a step as failed without having measured it |
| `CapacityRuns.RecordedUsersWereRun` | tests/perf/locustfile.py:304-317 | as long as a step was current every tick asked Locust for exactly the users the step is recorded with; only the last tick of a run can stop it, which it does exactly when all steps are recorded or, unless all are to be run, one has failed |
| `Sampler.PercentileIsNearestRank` | tests/perf/stats.py:48-54 | the result is the smallest member such that at least pct percent of the values are no larger, and the smallest of all for percentages up to 0 |
| `Sampler.PercentileInRange` | tests/perf/stats.py:53-54 | 0 for an empty list; for any other the index is in range exactly for percentages up to 100 |
| `Sampler.PercentileIgnoresOrder` | tests/perf/stats.py:52 | invariant under permutation |
| `Sampler.PercentileIsMonotone` | tests/perf/stats.py:53-54 | a higher percentage never gives a lower value |
| `Sampler.SortedIsSorted` | tests/perf/stats.py:52 | the sort ascends, permutes, and keeps every count |
| `Sampler.SampleUntilStopped` | tests/perf/stats.py:202-218 | the loop produces the samples of the readings up to the first that fails |
| `Sampler.SamplesShowReadings` | tests/perf/stats.py:150-166 | every sample shows its reading: the memory in use or 0, and a percentage that over the time since the previous reading makes up the CPU time used since |
| `Sampler.CpuIsConserved` | tests/perf/stats.py:150-166 | over any number of samples, percent times elapsed sums to 100 times the CPU seconds from the baseline, less what accrued while the clock did not advance |
| `Sampler.CpuAccountIsExact` | tests/perf/stats.py:150-166 | with cumulative usage the account is exact if and only if no CPU was used between two readings with no time between them |
| `Sampler.WindowSumsDeltas` | tests/perf/stats.py:124-147 | the CPU seconds of a window are the sum of the adjacent deltas inside it; None exactly for a single sample |
| `Sampler.WindowIsInclusive` | tests/perf/stats.py:134-140 | a window takes in the samples at both its ends and nothing outside |
| `Sampler.EmptyWindow` | tests/perf/stats.py:141-142 | a window no sample falls into reports nothing |
| `Sampler.SecondsAreMillionMicroseconds` | tests/perf/stats.py:144-147 | usage in microseconds is reported in seconds |
| `Sampler.WindowsAddUp` | tests/perf/stats.py:124-147 | windows sharing an end sample add up, in CPU seconds and in length |
| `HeroViews.UpdateToV2` | src/app/views/hero_v1.py:63-73 | converts to exactly the named fields, `superpower` as a one-element list; fails exactly for an explicitly null superpower |
| `HeroViews.StepRefines` | src/app/views/hero_v1.py:35-73 | each v1 or v2 operation on the v2 store (create, draft, update, archive, restore, by any caller) shows through the v1 view as the same operation on native v1 records |
| `HeroViews.V1ApiRefinesNativeStore` | src/app/views/hero_v1.py:35-73 | so does every sequence of operations from every store; and if every hero was readable through v1 it stays so |
| `HeroViews.V1UpdateKeepsTheRest` | src/app/views/hero_v1.py:63-73 | no v1 update touches other heroes, owner, lock, archive, power level or schedule; one not naming `superpower` keeps every power; one by someone else, or of a locked or archived hero, changes nothing |
| `HeroViews.V1UpdateStoresWhatItNames` | src/app/views/hero_v1.py:63-73 | one by the owner of an open hero stores exactly the named fields, `superpower` as the only power, and nothing at all if that is null |
| `HeroViews.VersionsMeet` | src/app/views/hero_v1.py:35-60 | a hero created through v1 has that name and that single power for v2; one without name and powers shows as "(draft)" in v1 |
| `HeroViews.OnlyUnlockingChangesLocked` | src/app/views/hero_v1.py:63-73 | a locked hero is changed by no delete and no v1 update, and by its owner's v2 update exactly if that unlocks it |
| `HeroViews.EchoKeepsPowersIffSingle` | src/app/views/hero_v1.py:38-40 | an owner who sends back the superpower shown keeps the powers exactly when there is one |
| `HeroMigration.HeroesTable.Upgrade` | alembic/versions/91807f3de5be_convert_hero_superpower_to_powers_list.py:23-28 | the four statements never fail and leave every row with its superpower as its only power |
| `HeroMigration.HeroesTable.Downgrade` | alembic/versions/91807f3de5be_convert_hero_superpower_to_powers_list.py:31-36 | the four statements succeed exactly if every row has a first power, and otherwise leave the table as it was |
| `HeroMigration.DowngradeUndoesUpgrade` | alembic/versions/91807f3de5be_convert_hero_superpower_to_powers_list.py:23-36 | going up and back down restores every table |
| `HeroMigration.UpgradeUndoesDowngradeIffSingle` | alembic/versions/91807f3de5be_convert_hero_superpower_to_powers_list.py:23-36 | going down and back up is the identity exactly on tables whose every list has one element |
| `HeroMigration.UpgradeKeepsTheV1View` | src/app/views/hero_v1.py:51-55 | an upgraded row reads through the v1 view with the superpower it had, if and only if v1 accepts that superpower (not empty, not over-long); otherwise the read fails |
| `HeroMigration.DowngradeKeepsTheV1View` | alembic/versions/91807f3de5be_convert_hero_superpower_to_powers_list.py:31-36 | a row that was migrated back holds the first of its powers, which is what the v1 view showed of it |
| `Purge.Database.PurgeArchived` | src/app/maintenance.py:58-79 | purges every archivable table, whatever the order of the mappers, and returns rows before minus rows after |
| `Purge.KeptExactly` | src/app/maintenance.py:71-75 | exactly the rows go that were archived at the cutoff or before; every other row stays as often as it was |
| `Purge.PurgedExactly` | src/app/maintenance.py:67-75 | they go from exactly the tables of the archivable models |
| `Purge.PurgeTwice` | src/app/maintenance.py:58-79 | purging at t1 and again at a later t2 is purging once at t2, and the numbers the two purges return add up to what the one returns |
| `SecurityTxt.Validate` | src/app/config.py:289-346 | no problem is reported exactly for acceptable settings, and each problem exactly when it is there: a blank or unprintable value, a contact that is no https, mailto or tel URI, a link that is not https, an expiry missing, without zone, past or over 366 days ahead |
| `SecurityTxt.AcceptsMoreThanAYear` | src/app/config.py:334-341 | any accepted settings with a contact are accepted with an expiry 366 days ahead too |
| `SecurityTxt.Render` | src/app/well_known.py:37-49 | no file without contact or expiry; otherwise the fields in order, one line each |
| `SecurityTxt.PrintedFieldsParse` | src/app/well_known.py:42-49 | reading undoes printing for fields whose texts hold no line feed, `: ` in a value included |
| `SecurityTxt.PublishedFileReadsBack` | src/app/config.py:298-346 | for all settings the validator accepts: published exactly with a contact, splits back into the configured fields in order, and `Expires` parses back to the configured instant to the second (RFC 9116 sections 2.5.5 and 4) |
| `SecurityTxt.LineFeedAddsAField` | src/app/config.py:294-296 | why control characters are refused: with a line feed in it, any value can add any further field |
| `Timestamps.CivilDenotes` | src/app/well_known.py:41 | the civil fields in UTC denote the instant, to the second |
| `Timestamps.CivilIsDateAndTime` | src/app/well_known.py:41 | they are the date of the instant's day and the time of that day |
| `Timestamps.DatesFollowTheCalendar` | src/app/well_known.py:41 | no date overruns its month, with months of 28 to 31 days and leap years, and every day has the date that follows that of the day before |
| `Timestamps.DateIsUnique` | src/app/well_known.py:41 | every date is that of exactly the day with its number |
| `Timestamps.KnownDays` | src/app/well_known.py:41 | the count of days is anchored: 1 January of year 1, the start of Unix time and 29 February 2000 |
| `Timestamps.LeapYearsIn400` | src/app/well_known.py:41 | any 400 years hold 97 leap years |
| `Timestamps.StampReadsBack` | src/app/well_known.py:41 | printing a civil time and reading it back gives its instant |
| `Timestamps.StampLooksLike` | src/app/well_known.py:41 | what a printed timestamp looks like, character by character |

## Left out

- InvalidationTask: `run_invalidation` never returns, so it is a transition system rather than a
  method; its order of steps, exception paths and suspension points are those of the code. Time
  spent sleeping is any `Tick`, not `retry_seconds`.
- CacheHistory: lookups of resources, keys or versions that hold a `:` are outside the history of
  the Redis cache (`Glob.ColonsBreakExactness` shows why); storing them is allowed.
- StatsCaches.RedisStatsCache.Invalidate: another replica's invalidation may go through
  between two pages of the scan, but one that interleaves its unlinks with it appears only as the
  loss of those keys, its own entry in the history being the business of its own call; a `set` whose write took effect before its error came back is a `set`
  by another replica here.
- CapacityRamp: the text of the reported breaches (`failed_on` is a list of values), and Locust's
  own percentile values.
- HeroViews: which records a listing shows (archived ones, or ones outside their publishing window,
  are left out by default), publishing a draft, cloning and bulk operations.
- Sampler: `summarize`'s mean, p95 and maximum, which ignore `--since` and `--until`; cgroup and
  docker I/O; the wait between samples.
- Timestamps: years before 1000, which `strftime` prints with fewer than four digits on some
  platforms.
- SecurityTxt: `protected_resource_metadata` and the router, one expression each.
- The other production guardrails of the settings, each settled by one branch.
- OIDC verification, rate limiting, FastAPI wiring, health checks and telemetry: thin dispatch
  over libraries.
- The rest of the lifespan: a finite set of failure points with external effects.
- The CRUD and observability libraries: their source is not part of this model.
- The other Alembic revisions: column additions without a transformation of data.
