# DecisionOS: verified models

DecisionOS is a release-governance and metering service. Most of it moves data between HTTP, files,
Redis and SQLite; between those layers sit small algorithms and protocols on which its guarantees
rest. This Dafny project models those and proves what they promise over every input, every run or
every schedule. `dafny verify dfyconfig.toml` checks all of it.

| file | component |
|---|---|
| `replay.dfy` | the judge endpoint's skew check composed with the SQLite and Redis nonce stores |
| `lineage.dfy` | breadth-first search over the two mirrored adjacency maps of the lineage graph |
| `tokenbucket.dfy`, `ratelimiters.dfy`, `slidingwindow.dfy` | the back-pressure token bucket, the in-memory and Redis request limiters, the alert limiter |
| `breaker.dfy` | the circuit breaker, as interleaved admit and settle steps of any number of calls |
| `stagefile.dfy` | the signed stage file: two atomic writes, repairing readers, crashes, outside overwrites |
| `metering.dfy`, `rating.dfy` | idempotent filter, watermark, hourly aggregation, and the bill |
| `policy.dfy` | policy evaluation by sorted first match against the declarative rule |
| `delta.dfy`, `paging.dfy` | card deltas, bucket paging by continuity token |
| `metrickey.dfy`, `windowcounter.dfy` | metric keys of the registry, and the sliding window behind each metric |
| `workorder.dfy`, `workorderrun.dfy`, `versionlists.dfy` | marker-block patches, whole work orders, version index and changelog |
| `evidencegc.dfy`, `percentiles.dfy` | evidence selection for deletion, interpolated percentiles |
| `common.dfy`, `text.dfy`, `dicts.dfy`, `sorting.dfy` | options and results, Python string search and strip, insertion-ordered dictionaries, stable sorting |

Code that updates objects or runs loops is a class or a method, proved against a function of the old
state or the inputs; the theorems are lemmas about those functions and about runs of them. Every lemma
carries `{:induction false}`: its proof is the one written, with no induction added by the verifier.

## Conventions

- Time is a parameter of each call and never decreases within a run. The judge's clock counts
  microseconds, metering's too, paging and evidence count whole UTC seconds, the limiters and the
  breaker use reals. The token bucket's runs are described on the credit clock `now * refill_rate`;
  `WindowBoundInSeconds` brings the result back to seconds.
- Money and usage are whole non-negative micro-units, so `round(x, 6)` is the identity.
- SHA-256 and HMAC are injective constructors: a signature under a configured key exists only for a
  token some process has signed. Idempotency keys are the text that is hashed.
- A Redis key counts as expired from the instant its time to live is over, the earliest reading.
- A Python dict is a map with the insertion order of its keys; `sorted` is a stable sort. The order
  in which a set yields its members is a parameter of the graph search.
- Evaluating a policy expression for a request yields yes, no or an error; JSON, base64 and ISO
  parsing are their results: a decoded value, or the marker that it does not decode.

## What the code does that its documentation does not say

- The half-open breaker promises to admit a limited number of requests; the limit counts successes,
  so under every configuration any number of trials can be in flight (`HalfOpenAdmitsAnyNumber`). With
  overlapping calls one half-open failure need not reopen it, unless the threshold is one
  (`HalfOpenFailureReopensExactly`; per run: `OneFromTripExactly`), and under every configuration late
  trials can close an open breaker before its timeout (`StaleTrialClosesOpen`; per run:
  `OpenStaysOpenExactly`).
- The Redis nonce store joins key id and nonce with a colon, so the pairs ("a", "b:c") and ("a:b", "c")
  share an entry, and the first use of one is refused as a replay of the other
  (`RedisRefusesFirstUse`). The store keeps all pairs apart exactly when no configured key id is another
  one followed by a colon, so colon-free ids are safe (`KeyIdsApartExactly`); what is accepted in
  general is `RedisAcceptsExactly`.
- Bucket keys join tenant and metric with a bar, so names that contain bars can share a bucket, whose
  names are those of its last event. Buckets, and bills, then depend on the order of events, and a
  further event can lower a bill; the exact conditions are `OrderInvariantExactly`,
  `BillIgnoresOrderExactly` and `NextEventNeverLowersExactly`.
- `consume` accepts a negative number and then mints tokens beyond the capacity (`BoundsKeptExactly`).
- A completed stage write can be lost to a slow reader that saw the pair torn (`SlowReaderLosesWrite`).
  It survives whatever is already under way exactly when no other writer owes its manifest and no
  reader is about to repair (`WriteSurvivesExactly`). A write with a key variable set but no usable key
  replaces the token before it raises.
- Patches announced as idempotent are not where an END marker stands before BEGIN, or where the content
  holds an END marker (`PatchIdempotentExactly`, and in plain terms `PlainPatchIdempotentExactly`); nor is
  the version index for a version that spans lines (`IndexIdempotentExactly`).
- With `drop_too_late` false, events beyond the lag are kept and counted in neither late counter.
- The nonce store's own 720 s bound adds nothing behind the endpoint's 90 s check while the store call
  follows within 631 s (`FirstUseAcceptedExactly`).
- A continuity token that decodes but whose `last_end` is not an ISO time makes the request fail with an
  exception rather than start over (`GetPage`).

## Model

| member | source | states |
|---|---|---|
| Replay.SqliteReplayStore.SeenOrInsert | apps/judge/replay_plugins.py:54-68 | seen iff the timestamp is over 720 s away or the (key_id, nonce) row exists, and then nothing changes; otherwise the row is inserted and exactly the rows at most 600 s old stay, the new one included |
| Replay.RedisReplayStore.SeenOrInsert | apps/judge/replay_plugins.py:90-99 | seen iff too far away, the back end fails (closed), or the text joined from key id and nonce is still alive; otherwise it lives for 600 s from now |
| Replay.JudgeServer.PostJudge | apps/judge/server.py:58-124 | which status each combination of failed checks gets, when sig_error is set, and that only a request passing signature and skew touches the store, with all bounds written out |
| Replay.SqliteRetains | apps/judge/replay_plugins.py:54-68 | over any timely run, an accepted row is still there, with its timestamp, unless a later call came more than 600 s after that timestamp |
| Replay.RedisRetains | apps/judge/replay_plugins.py:90-99 | an accepted key stays recorded with at least its own 600 s deadline |
| Replay.SqliteSpacing | apps/judge/server.py:95-104 | two acceptances of one (key_id, nonce), whatever their timestamps, are at least 601 s minus skew and delay apart: 511 s at the endpoint with no delay |
| Replay.RedisSpacing | apps/judge/replay_plugins.py:90-99 | with Redis acceptances under one text are at least 600 s apart |
| Replay.SqliteDoubleAccept | apps/judge/replay_plugins.py:54-68 | for any larger skew and delay there is a timely run that accepts one message twice |
| Replay.RedisDoubleAccept | apps/judge/replay_plugins.py:90-99 | the same for Redis |
| Replay.SqliteAtMostOnceExactly | apps/judge/server.py:95-104 | no timely run accepts a (key_id, nonce, ts) twice if and only if skew + delay < 601 s |
| Replay.RedisAtMostOnceExactly | apps/judge/server.py:95-104 | with Redis, if and only if 2 * skew + delay < 600 s |
| Replay.EndpointAtMostOnce | apps/judge/server.py:95-104 | at the endpoint's 90 s, if and only if the delay between check and store call is below 511 s (SQLite) or 420 s (Redis) |
| Replay.OnlyAcceptedAreRemembered | apps/judge/replay_plugins.py:54-99 | whatever a store remembers comes from an earlier acceptance under the same row key (SQLite) or the same text (Redis), and carries its timestamp or deadline |
| Replay.SqliteAcceptsExactly | apps/judge/server.py:58-104 | a request is accepted if and only if it is well formed, its signature is good, its timestamp is within 90 s of the clock, and every earlier acceptance of its (key_id, nonce) has been purged by a later insert |
| Replay.RedisAcceptsExactly | apps/judge/replay_plugins.py:90-99 | over Redis, if and only if the same holds of form, signature and timestamp, the back end is up, and no earlier acceptance under the same joined text is younger than 600 s |
| Replay.FirstUseAccepted | apps/judge/server.py:95-104 | a message whose entry (row key, or text) was not accepted before is never taken for a replay, while the delay is below 631 s |
| Replay.FirstUseAcceptedExactly | apps/judge/replay_plugins.py:56-57 | no first use is ever rejected if and only if the delay stays below 631 s |
| Replay.RedisRefusesFirstUse | apps/judge/replay_plugins.py:94-96 | a timely run in which Redis refuses a pair never used before, and SQLite accepts it |
| Replay.KeyIdsApartExactly | apps/judge/replay_plugins.py:94-94 | the Redis texts of all pairs over a set of key ids differ if and only if no id is another one followed by a colon; colon-free ids are on the safe side |
| Lineage.Bfs | apps/lineage/graph.py:40-54 | the queue loop returns the unlimited search for the same neighbour order, or its first min(limit, n) results; a limit below one still lets one through |
| Lineage.Expand | apps/lineage/graph.py:46-53 | the inner loop takes the unvisited neighbours in order, cut off exactly when the limit is reached |
| Lineage.FullSearchIsExact | apps/lineage/graph.py:40-54 | the unlimited search returns exactly the nodes at the end of a walk of at least one edge, each once, in non-decreasing shortest distance |
| Lineage.SweepIsExact | apps/lineage/graph.py:44-51 | the invariant behind it, from any reachable point of the loop |
| Lineage.Duality | apps/lineage/graph.py:21-34 | x is downstream of n iff n is upstream of x, whatever the two iteration orders |
| Lineage.LineageGraph.constructor | apps/lineage/graph.py:16-19 | an empty graph is mirrored |
| Lineage.LineageGraph.AddEdge | apps/lineage/graph.py:21-25 | exactly one edge is added, to both maps, which stay mirrored; meta is stored only when not empty |
| Lineage.LineageGraph.Downstream | apps/lineage/graph.py:30-31 | the exact search over the downstream map, or its prefix: without a limit all of it, else min(limit, n) nodes and at least one if there is one |
| Lineage.LineageGraph.Upstream | apps/lineage/graph.py:33-34 | the same over the upstream map |
| TokenBuckets.TokenBucket.constructor | apps/judge/backpressure.py:40-45 | a new bucket is full, and last refilled now |
| TokenBuckets.TokenBucket.Refill | apps/judge/backpressure.py:56-62 | tokens grow by elapsed seconds times rate, up to the capacity; so the bucket earns the elapsed credit |
| TokenBuckets.TokenBucket.Consume | apps/judge/backpressure.py:47-54 | granted iff the grown level covers n, which is then subtracted; answer and new bucket are those of the run semantics |
| TokenBuckets.TokenBucket.GetStats | apps/judge/backpressure.py:64-73 | the reported level is that of the refilled bucket; a zero capacity fails, after the refill |
| TokenBuckets.LevelIsLeastAllowance | apps/judge/backpressure.py:47-62 | along any run the level is the least of capacity + earned - granted over all windows ending now, and some window attains it |
| TokenBuckets.GrantIffEveryWindowAllows | apps/judge/backpressure.py:47-54 | a request is granted if and only if no window ending with it would hand out more than capacity + credit earned |
| TokenBuckets.BoundsKeptExactly | apps/judge/backpressure.py:47-54 | consuming n keeps every bucket within [0, capacity] if and only if n >= 0 |
| TokenBuckets.RunKeepsBounds | apps/judge/backpressure.py:47-62 | tokens stay within [0, capacity] over every run of non-negative requests |
| TokenBuckets.WindowBound | apps/judge/backpressure.py:47-62 | no window of any run hands out more than capacity + credit earned |
| TokenBuckets.WindowBoundInSeconds | apps/judge/backpressure.py:47-62 | for all s <= t, calls within [s, t] hand out at most capacity + refill_rate * (t - s) |
| TokenBuckets.RefillComposes | apps/judge/backpressure.py:56-62 | refilling at a and then at c is refilling at c |
| TokenBuckets.StatsAreInvisible | apps/judge/backpressure.py:64-73 | any number of get_stats calls anywhere changes no decision |
| RateLimiters.InMemoryRateLimiter.Allow | apps/common/rl.py:38-47 | level, decision, remaining tokens and new state of one call, written out; an unknown scope starts full |
| RateLimiters.RedisRateLimiter.Allow | apps/common/rl.py:51-80 | the same for the script: a key idle for 120 s restarts full, a clock that goes back earns nothing, and the remaining tokens are cut to an integer as the reply is |
| RateLimiters.BackendsAgreeExactly | apps/common/rl.py:38-69 | both back ends decide alike on every call sequence if and only if 120 * refill >= cap |
| RateLimiters.TrialTellsApart | apps/common/rl.py:51-69 | otherwise draining a scope and calling again at 120 s tells them apart |
| RateLimiters.SafeConfigurations | apps/common/rl.py:83-85 | bursts up to 12, and the shipped defaults, are on the safe side |
| RateLimiters.RefillExactly | apps/common/rl.py:83-85 | requests over seconds, for a window of at least one second, but never below a tenth per second |
| RateLimiters.ScopesAreIndependent | apps/common/rl.py:38-69 | a decision depends only on the earlier calls for the same scope |
| RateLimiters.ScopeIsBucket | apps/common/rl.py:38-47 | one scope in memory goes through the states of a token bucket |
| RateLimiters.MemoryDecidesLikeBucket | apps/common/rl.py:38-47 | and decides like it, so the bucket's bounds and exact grant condition hold per scope |
| SlidingWindow.SlidingWindowRateLimiter.Allow | apps/alerts/ratelimit.py:11-21 | exactly the events older than the window are dropped from the left; allowed iff fewer than max_events are left; the whole new table, the trimmed deque of a refused call included |
| SlidingWindow.DequeIsRecentHistory | apps/alerts/ratelimit.py:13-20 | a key's deque is sorted and holds exactly its allowed events still in the window at its last call |
| SlidingWindow.AllowedIffWindowHasRoom | apps/alerts/ratelimit.py:11-21 | a call is allowed if and only if fewer than max_events were allowed in the closed window ending now |
| SlidingWindow.Spacing | apps/alerts/ratelimit.py:15-20 | max_events + 1 consecutive allowed events of a key span more than the window |
| SlidingWindow.WindowBound | apps/alerts/ratelimit.py:11-21 | every closed window of the configured length holds at most max_events allowed events of each key |
| CircuitBreakers.CircuitBreaker.GetState | apps/judge/backpressure.py:125-132 | an open breaker turns half-open once its timeout has passed |
| CircuitBreakers.CircuitBreaker.Enter | apps/judge/backpressure.py:92-101 | the first critical section: refused, or admitted in a mode |
| CircuitBreakers.CircuitBreaker.Settle | apps/judge/backpressure.py:104-123 | the second one, for a success or a failure of a call admitted in the given mode; a failure counts, and sets the failure time, in every mode |
| CircuitBreakers.CircuitBreaker.Call | apps/judge/backpressure.py:90-123 | a call that no other overlaps is the two sections in a row |
| CircuitBreakers.LastFailureIsLastFail | apps/judge/backpressure.py:117-122 | under every interleaving the failure time is that of the last failing call, in whatever mode it landed |
| CircuitBreakers.AdmitsExactly | apps/judge/backpressure.py:90-101 | under every interleaving a call is refused iff the breaker is open and less than the timeout has passed since the last failing call; which mode it is admitted in otherwise |
| CircuitBreakers.FailureStep | apps/judge/backpressure.py:117-122 | each failing call adds one to the failure count, in every mode; what resets it; nothing else changes it |
| CircuitBreakers.FailuresCounted | apps/judge/backpressure.py:106-122 | so between two resets the count grows by the number of failing calls |
| CircuitBreakers.TrialStep | apps/judge/backpressure.py:106-112 | each trial that succeeds adds one to the success count, in every mode; turning half-open zeroes it; nothing else changes it |
| CircuitBreakers.TrialsCounted | apps/judge/backpressure.py:106-112 | so between two turns to half-open it grows by the number of trials that succeed |
| CircuitBreakers.ModeChanges | apps/judge/backpressure.py:90-132 | what changes the mode: to open at the threshold, to closed with the last trial needed, to half-open after the timeout; nothing else does |
| CircuitBreakers.AlwaysSafe | apps/judge/backpressure.py:90-132 | under every interleaving closed means fewer failures than the threshold, half-open fewer successes than needed, and the HALF_OPEN-limit exception is never raised |
| CircuitBreakers.PrimedExactly | apps/judge/backpressure.py:106-122 | along an interleaved run the failure count is at least the threshold whenever the breaker is not closed, if and only if no success admitted while closed lands while it is not closed |
| CircuitBreakers.OneFromTripExactly | apps/judge/backpressure.py:106-122 | along a run the next failure reaches the threshold whenever the breaker is not closed, if and only if the threshold is one or no such success lands |
| CircuitBreakers.HalfOpenFailureReopensExactly | apps/judge/backpressure.py:90-123 | one half-open failure reopens the breaker in every interleaved run if and only if the threshold is one |
| CircuitBreakers.OverlapDefeatsReopening | apps/judge/backpressure.py:113-122 | for every configuration with a threshold above one, a run in which a half-open failure does not reopen |
| CircuitBreakers.OpenStaysOpenExactly | apps/judge/backpressure.py:106-112 | along a run no step closes an open breaker if and only if no trial succeeds as the last one needed while it is open |
| CircuitBreakers.StaleTrialClosesOpen | apps/judge/backpressure.py:107-112 | under every configuration there is a run in which late trials close an open breaker before its timeout |
| CircuitBreakers.HalfOpenAdmitsAnyNumber | apps/judge/backpressure.py:98-101 | under every configuration and for every n, a run with n trials in flight while half-open |
| CircuitBreakers.SequentialRefines | apps/judge/backpressure.py:90-132 | without overlap the breaker refines a three-state counter machine, is always primed, and refuses exactly when the machine does |
| CircuitBreakers.RecoveryTakesExactlyTrials | apps/judge/backpressure.py:107-112 | the machine closes with the half_open_requests-th success in a row, not before |
| CircuitBreakers.TrippingTakesExactlyThreshold | apps/judge/backpressure.py:117-122 | and trips with the threshold-th failure in a row, not before |
| CircuitBreakers.OpenBreakerRecovers | apps/judge/backpressure.py:90-132 | after any sequential history that left it open: half-open until exactly half_open_requests successes after the timeout, then closed with no failures |
| CircuitBreakers.FailedTrialReopens | apps/judge/backpressure.py:117-122 | after any sequential history one failed trial reopens it, with a fresh timeout |
| StageFiles.StageFile.WriteStageAtomic | apps/experiment/stage_file.py:93-109 | succeeds iff a usable key exists and then leaves a consistent signed pair; what a failing write has changed |
| StageFiles.StageFile.GuardAndRepair | apps/experiment/stage_file.py:122-126 | installs a consistent "stable", or touches nothing when no key is configured |
| StageFiles.StageFile.ReadOrRepair | apps/experiment/stage_file.py:133-149 | a consistent pair is returned untouched, as its own token or as "stable" when the token is empty; anything else becomes a consistent "stable", if a key is configured |
| StageFiles.WriteThenRead | apps/experiment/stage_file.py:93-149 | a written stage is read back, stripped, or as "stable" when that leaves nothing |
| StageFiles.ReadTwice | apps/experiment/stage_file.py:133-149 | a repair is a fixpoint: the second read returns the same and changes nothing, whatever the files held |
| StageFiles.StepKeepsInv | apps/experiment/stage_file.py:93-149 | every step of a writer, reader, crash or outside overwrite keeps: what is signed, owed or returned is "stable" or was passed to a write |
| StageFiles.RunKeepsInv | apps/experiment/stage_file.py:93-149 | so does every schedule |
| StageFiles.ReadsAreSound | apps/experiment/stage_file.py:133-172 | under any schedule every read returns "stable" or a stage some caller passed to a write |
| StageFiles.WriteIsReadBack | apps/experiment/stage_file.py:133-149 | after a completed write any interleaving of readers, crashing ones among them, leaves the files alone and returns the written token, or "stable" for an empty one |
| StageFiles.SoloWriteCalms | apps/experiment/stage_file.py:93-109 | a write that runs to its end in one go reaches that state |
| StageFiles.WriteSurvivesExactly | apps/experiment/stage_file.py:93-149 | a consistent pair survives every schedule of reads and of what is under way if and only if each process under way is harmless: it has only opened the file, holds or owes the same token, or repairs to "stable" what already says so |
| StageFiles.SlowReaderLosesWrite | apps/experiment/stage_file.py:139-147 | for every stage and earlier files, unless the old manifest signs that stage, a schedule in which the completed, consistent write is replaced by "stable" |
| StageFiles.SoloWriteAgrees | apps/experiment/stage_file.py:93-109 | a write of the interleaved system that runs alone leaves what the method leaves |
| StageFiles.SoloReadAgrees | apps/experiment/stage_file.py:133-149 | and a read alone leaves and returns what the method does |
| Metering.InMemoryIdempoStore.Mark | apps/metering/store.py:18-22 | adds the key and tells whether it was new |
| Metering.ApplyEvent | apps/metering/ingest.py:6-10 | an event is fresh iff the text of tenant, metric and correlation id was not in the store, which then holds it |
| Metering.FilterIdempotentWith | apps/metering/ingest.py:12-19 | keeps the first event of each unseen key, in order; kept + duplicates = received |
| Metering.KeptExactly | apps/metering/ingest.py:6-19 | an event is kept iff its tenant, metric and correlation id were neither seen before nor come earlier in the list |
| Metering.Accumulate | apps/metering/reconcile.py:20-31 | the loop body folds the event into the slot of its key |
| Metering.AggregateHourly | apps/metering/reconcile.py:16-44 | the buckets of the kept events; bucket counts + duplicates = number of events |
| Metering.AggregateSurviving | apps/metering/reconcile.py:56-71 | the loop with its lateness check: buckets of the survivors, and both late counters exactly |
| Metering.SurvivesExactly | apps/metering/watermark.py:13-25 | an event is left out iff the policy drops and it is older than max_lag_sec |
| Metering.AggregateHourlyWithWatermark | apps/metering/reconcile.py:47-81 | counts + duplicates + late_dropped = number of events; late_kept counts the kept events with 0 < age <= lag, late_dropped those beyond the lag when the policy drops |
| Metering.CountsConserved | apps/metering/reconcile.py:20-31 | bucket counts add up to the number of kept events |
| Metering.SumsConserved | apps/metering/reconcile.py:20-31 | bucket sums add up to the sum of kept values |
| Metering.BucketsAreSummaries | apps/metering/reconcile.py:20-43 | a key has a bucket iff it has events, and the bucket is their exact count, sum, attained minimum and maximum, and window |
| Metering.SameBucketExactly | apps/metering/reconcile.py:8-22 | two events share a bucket iff their names read alike with a bar between them and they fall into the same hour |
| Metering.BucketTells | apps/metering/reconcile.py:20-43 | the bucket of an event: from a whole hour to the next, with the exact count, sum, minimum and maximum of the events together with it, under the names of the last of them |
| Metering.BucketBounds | apps/metering/reconcile.py:20-43 | count * min <= sum <= count * max |
| Metering.NothingDropped | apps/metering/watermark.py:13-25 | with drop_too_late false every event survives, at any now |
| Metering.WatermarkAgrees | apps/metering/reconcile.py:16-81 | then both aggregations give the same buckets and duplicates |
| Metering.ReplayInvariant | apps/metering/ingest.py:12-19 | appending events whose keys were seen keeps exactly the events kept before |
| Metering.ReplayChangesNothing | apps/metering/reconcile.py:16-44 | replays change nothing in the report but the duplicates counter |
| Metering.PermutationKeepsBuckets | apps/metering/reconcile.py:20-31 | any order of events without key collisions gives the same buckets |
| Metering.OrderInvariantExactly | apps/metering/reconcile.py:20-31 | buckets are independent of order if and only if no two events collide on a bucket key under different names |
| Metering.BarFreeTenantsNeverCollide | apps/metering/reconcile.py:22-22 | tenants without bars rule collisions out, whatever the metrics |
| Rating.SumUsageByMetric | apps/rating/engine.py:19-23 | usage per metric in order of first appearance |
| Rating.RateMetric | apps/rating/engine.py:29-40 | one line item: for a planned metric what exceeds the included amount, at the plan's rate; zeros for an unplanned one |
| Rating.RateFromBuckets | apps/rating/engine.py:25-41 | one item per metric, whose usage is the sum of its buckets, whose overage and amount are the plan's, written out; the subtotal is the sum of the amounts |
| Rating.RateUsage | apps/rating/engine.py:29-41 | the loop over the metrics: the items in order and their subtotal |
| Rating.ItemsAreMetrics | apps/rating/engine.py:19-40 | one item for each metric that has buckets, and no other |
| Rating.ItemsAreBilled | apps/rating/engine.py:29-40 | usage, included amount, rate, overage and amount of each item |
| Rating.RateReport | apps/rating/engine.py:43-46 | the same for a report's buckets |
| Rating.MeterAndRate | apps/rating/engine.py:25-46 | metering and rating together compute the bill of the kept events |
| Rating.UsageIsMetricTotal | apps/rating/engine.py:19-23 | unless a bucket is contested, what is billed as usage of a metric is what its events add up to |
| Rating.BillMonotone | apps/rating/engine.py:25-41 | the bill grows with the usage of each metric, whatever order buckets and metrics come in |
| Rating.MoreEventsNeverLowerBill | apps/rating/engine.py:19-41 | receiving more events, replays among them, never lowers the bill |
| Rating.UsageStep | apps/metering/reconcile.py:20-31 | how one more event changes the billed usage of each metric, collisions or not |
| Rating.NextEventNeverLowersExactly | apps/rating/engine.py:19-41 | one more kept event lowers the bill under no plan if and only if it does not rename a bucket that has usage |
| Rating.RenamingExists | apps/metering/reconcile.py:22-25 | two key-distinct events of which the second renames the first one's bucket |
| Rating.BillIgnoresOrderExactly | apps/rating/engine.py:19-41 | every order of the kept events gives the same bill under every plan if and only if no bucket with usage holds events of two metrics |
| Rating.BillIgnoresOrder | apps/rating/engine.py:19-41 | key-distinct events without a contested bucket bill alike in any order, through the idempotent filter |
| Rating.LastTakesBucket | apps/metering/reconcile.py:24-25 | of two colliding events at the end, the last takes the usage of the whole bucket under its metric |
| Rating.BarFreeTenantsUncontested | apps/metering/reconcile.py:22-22 | tenants without bars leave no bucket contested |
| PolicyDecision.CandidatePolicies | apps/policy/pdp.py:163-174 | the candidates are the rules for the action or for "*" of all bundles, none lost or repeated, by falling priority, denies first, then position |
| PolicyDecision.SortSorts | apps/policy/pdp.py:173-173 | sorted by falling priority, denies first, position; the same candidates; ties in enumeration order |
| PolicyDecision.EvaluateRule | apps/policy/pdp.py:52-134 | the trace entry of a rule, field by field; it matches iff `when` is yes and `unless` is absent or no |
| PolicyDecision.EvaluateCandidates | apps/policy/pdp.py:49-160 | the trace has one entry per candidate up to and including the first match, and the decision is that of its last entry, or deny by default |
| PolicyDecision.Evaluate | apps/policy/pdp.py:45-160 | allow iff some allowing rule for the action or for "*" matches and everything else that matches is of lower priority or allows too; deny by default iff none matches; else the named rule is the one that goes first by priority, deny before allow, position and bundle |
| PolicyDecision.CandidateRules | apps/policy/pdp.py:163-174 | the rules of the candidates are exactly those that some bundle lists for the action or for "*" |
| PolicyDecision.FirstMatchDecides | apps/policy/pdp.py:45-160 | first match over sorted candidates is the declarative rule |
| PolicyDecision.FirstMatchLeads | apps/policy/pdp.py:45-174 | the first match goes before every other match: by priority, deny before allow, position, and, through the stable sort, bundle |
| PolicyDecision.PermittedExactly | apps/policy/pdp.py:45-160 | the declarative rule as one condition on the matching rules |
| PolicyDecision.EnumerationIsIrrelevant | apps/policy/pdp.py:163-174 | the verdict depends only on the set of rules, not on their order or bundling |
| PolicyDecision.WildcardMeansAny | apps/policy/pdp.py:167-168 | with the asked action in place of "*" in every rule, the verdict is the same |
| PolicyDecision.AddingDenyNeverAllows | apps/policy/pdp.py:45-160 | adding a deny rule never turns deny into allow |
| PolicyDecision.AddingAllowNeverDenies | apps/policy/pdp.py:45-160 | adding an allow rule never turns allow into deny |
| CardsDelta.BuildIndex | apps/ops/cache/etag_delta.py:30-36 | the index by id: first place, last content; entries without an id are skipped |
| CardsDelta.IndexTells | apps/ops/cache/etag_delta.py:30-36 | the ids of the list, each with the content of its last card, in the order in which they first come |
| CardsDelta.AddedAndUpdated | apps/ops/cache/etag_delta.py:46-52 | the new cards and those whose canonical JSON changed, in the order of the new snapshot |
| CardsDelta.Removed | apps/ops/cache/etag_delta.py:55-57 | the ids that are gone, in the order of the old snapshot |
| CardsDelta.ComputeCardsDelta | apps/ops/cache/etag_delta.py:11-63 | none iff a snapshot or its card list is missing or of the wrong type; otherwise exactly the new cards as added, the gone ids as removed, and the cards with other canonical JSON as updated, each once and in order |
| CardsDelta.DeltaCompares | apps/ops/cache/etag_delta.py:46-63 | what is listed as added, removed and updated, for any two indexes |
| CardsDelta.StoreAll | apps/ops/cache/etag_delta.py:95-102 | the loops that store updated and added cards |
| CardsDelta.ApplyCardsDelta | apps/ops/cache/etag_delta.py:66-108 | when the base comes back as it is, and otherwise the cards of the delta applied to its index, the rest of the snapshot kept |
| CardsDelta.AppliedTells | apps/ops/cache/etag_delta.py:83-102 | for any delta whatever, each id: an added card wins over an updated one, that over a removal, and that over the base |
| CardsDelta.ApplyAgrees | apps/ops/cache/etag_delta.py:66-108 | the delta from b to n applied to any index agreeing with b agrees with n; surviving cards keep their order, added ones follow |
| CardsDelta.ReindexIsIdentity | apps/ops/cache/etag_delta.py:83-106 | rebuilding the list and indexing it again gives the same dictionary |
| CardsDelta.RoundTrip | apps/ops/cache/etag_delta.py:11-108 | indexing apply(base, compute(base, now)) gives the index of now up to canonical JSON |
| CardsDelta.DeltasCompose | apps/ops/cache/etag_delta.py:66-108 | deltas compose along any chain of snapshots |
| CardsDelta.ApplicableIffDifferent | apps/ops/cache/etag_delta.py:111-127 | a computed delta is not applicable if and only if the two indexes agree |
| BucketPaging.CountRow | apps/ops/cards/bucketing.py:33-45 | the loop body counts one row in the bucket of its window |
| BucketPaging.BucketizeCountsByTime | apps/ops/cards/bucketing.py:12-52 | one bucket per occupied window, with the exact totals and per-reason counts of its rows, ends strictly increasing |
| BucketPaging.BucketsAreWindows | apps/ops/cards/bucketing.py:12-52 | each bucket is a whole hour (or else day), with the number of rows in it and, per reason, of rows with that reason; together they hold all rows, none is empty, and no two overlap |
| BucketPaging.FindOffset | apps/ops/api_cards.py:278-289 | the index of the first bucket that ends after the token's instant; zero for a token of another bucket size or one that does not decode; failure for one whose last_end cannot be read |
| BucketPaging.GetPage | apps/ops/api_cards.py:245-300 | which requests fail and how; page, has_more and token of the others |
| BucketPaging.TokenResumes | apps/ops/api_cards.py:278-300 | a page's token leads to the bucket right after the page |
| BucketPaging.FollowFrom | apps/ops/api_cards.py:278-300 | from any header on, following tokens yields exactly the rest of the buckets in order |
| BucketPaging.PagesCoverBuckets | apps/ops/api_cards.py:275-300 | from the first request on the pages are the whole bucket list, each bucket once and in order, full but for the last, with has_more on all but the last |
| BucketPaging.BucketsAreUnique | apps/ops/cards/bucketing.py:23-52 | the rows determine their buckets, so successive requests page through one list |
| BucketPaging.ReadAll | apps/ops/api_cards.py:275-300 | a client that requests page after page over fixed rows gets exactly their buckets, in as many pages as needed |
| BucketPaging.PageCountIsCeiling | apps/ops/api_cards.py:291-295 | in ceil(n / limit) pages |
| BucketPaging.TotalsConserveRows | apps/ops/cards/bucketing.py:23-52 | the bucket totals add up to the number of rows |
| MetricKeys.MetricsRegistry.Inc | apps/metrics/registry.py:50-53 | one counter and its window move; every other metric without stray bars or equals signs keeps both |
| MetricKeys.MetricsRegistry.Observe | apps/metrics/registry.py:55-57 | one window moves, no counter does; every other such metric keeps its window |
| WindowCounters.SlidingWindowCounter.Gc | apps/metrics/registry.py:18-21 | samples older than the window leave from the left |
| WindowCounters.SlidingWindowCounter.Add | apps/metrics/registry.py:13-16 | the sample is appended, then old ones leave |
| WindowCounters.SlidingWindowCounter.Sum | apps/metrics/registry.py:23-26 | the sum of what is left, and the trimmed queue |
| WindowCounters.SumAdds | apps/metrics/registry.py:23-26 | sums of parts add up, and one sample sums to its value |
| WindowCounters.SlidingWindowCounter.Count | apps/metrics/registry.py:28-31 | the number of samples left, and the trimmed queue |
| WindowCounters.QueueIsRecentHistory | apps/metrics/registry.py:13-31 | after every run the queue holds exactly the values added within the window that ends at the last operation |
| WindowCounters.LookSeesWindow | apps/metrics/registry.py:23-31 | so sums and counts speak of exactly the values added within the window that ends when they are asked for |
| MetricKeys.MetricsRegistry.SplitKeyLoop | apps/metrics/registry.py:93-102 | the parsing loop |
| MetricKeys.CleanRoundTrips | apps/metrics/registry.py:59-102 | parsing a printed metric gives name and labels back when it has no bar anywhere and no equals sign in a label name |
| MetricKeys.ParsedIsClean | apps/metrics/registry.py:93-102 | whatever is parsed, the result has that form |
| MetricKeys.RoundTripExactly | apps/metrics/registry.py:59-102 | so the round trip holds if and only if the metric has it |
| MetricKeys.DistinctMetricsDistinctKeys | apps/metrics/registry.py:59-63 | distinct metrics of that form never share a key |
| MetricKeys.KeyIgnoresInsertionOrder | apps/metrics/registry.py:62-63 | the order in which labels were inserted does not show in the key |
| MetricKeys.KeyIsPrinted | apps/metrics/registry.py:59-63 | the key is the name and then, label by label in ascending order of names, a bar, the label, an equals sign and its value |
| MetricKeys.LessExactly | apps/metrics/registry.py:62-63 | that order: the first different character decides, and a proper prefix comes first |
| MetricKeys.StoreTells | apps/metrics/registry.py:93-102 | a part is stored under what precedes its first equals sign, and skipped without one |
| EvidenceGC.SelectCandidates | jobs/evidence_gc.py:39-55 | the loop with its running count of deletions per tenant |
| EvidenceGC.Run | jobs/evidence_gc.py:27-55 | the paths of the selection, in its order |
| EvidenceGC.ChosenAreFirstEligible | jobs/evidence_gc.py:41-55 | of each tenant exactly the first eligible files are chosen, as many as its count exceeds the minimum by |
| EvidenceGC.SelectedOfTenant | jobs/evidence_gc.py:32-55 | the same for a whole run, oldest first |
| EvidenceGC.OnlyEligibleSelected | jobs/evidence_gc.py:42-49 | a selected file is listed, not locked, not excluded, and as old as its tier's retention (else that of WIP, else seven days; no tier is WIP) |
| EvidenceGC.SelectedInOrder | jobs/evidence_gc.py:31-55 | the selection runs from the oldest on, and names no file more often than it is listed |
| EvidenceGC.KeepsMinimum | jobs/evidence_gc.py:50-53 | every tenant keeps at least min(its count, keep_min) files |
| EvidenceGC.OldestFirst | jobs/evidence_gc.py:32-55 | a file that may go but is spared is no older than any selected file of its tenant |
| EvidenceGC.SparedOnlyAtMinimum | jobs/evidence_gc.py:51-53 | a file that is not locked, not excluded and old enough is spared only when its tenant is down to the minimum |
| EvidenceGC.SecondRunSelectsNothing | jobs/evidence_gc.py:27-67 | after the deletions a second run at the same instant, over the rest listed in any order, selects nothing |
| Percentiles.FormsAgree | apps/judge/metrics.py:66-77 | the weighted form and the base-plus-fraction form agree on every list and fraction |
| Percentiles.InterpolatesExactly | apps/obs/witness/exporter_c.py:13-20 | where (n - 1) * p is k and a part c, the value is c of the way from entry k to entry k + 1 |
| Percentiles.FixedPoints | apps/judge/metrics.py:66-77 | the first entry at 0, the last at 1, entry k at k / (n - 1) |
| Percentiles.BetweenNeighbours | apps/obs/witness/exporter_c.py:15-20 | the value lies between the neighbours of the position |
| Percentiles.WithinRange | apps/obs/witness/exporter_c.py:8-20 | and between the minimum and the maximum |
| Percentiles.MonotoneInFraction | apps/obs/witness/exporter_c.py:8-20 | it grows with the fraction, across index boundaries too |
| Percentiles.PercentileOfData | apps/obs/witness/exporter_c.py:8-20 | all of it for unsorted data, where it is what the judge computes on the sorted data |
| WorkOrders.PatchRewrites | scripts/wo_apply.py:67-80 | on a marked section replace, upsert and ensure change exactly what is between the markers, which stay the first of their kind |
| WorkOrders.PatchInserts | scripts/wo_apply.py:64-66 | a section without markers is appended, in any mode, and is then parsed as such |
| WorkOrders.PatchTells | scripts/wo_apply.py:67-80 | what each mode writes between the first BEGIN and the first END, even one that comes too early; an unknown mode writes nothing |
| WorkOrders.PatchAppends | scripts/wo_apply.py:64-66 | the block that is appended, character by character |
| WorkOrders.PatchFailsExactly | scripts/wo_apply.py:64-68 | a patch raises iff the text has the BEGIN marker but not the END marker |
| WorkOrders.PatchAdds | scripts/wo_apply.py:74-75 | append keeps what is inside, up to white space at its end, and adds the content below; the markers stay the first of their kind |
| WorkOrders.AppendsAccumulate | scripts/wo_apply.py:74-75 | two appends leave both contents, one below the other |
| WorkOrders.PatchIdempotentExactly | scripts/wo_apply.py:62-80 | in modes replace, upsert and ensure and for every section name, twice is once if and only if the text up to the content holds no END and the first END of the framed content is its own (ensure: or the section is filled, or something but white space comes before that END) |
| WorkOrders.PlainPatchIdempotentExactly | scripts/wo_apply.py:62-80 | for names that lack a line break or an angle bracket that means: the first END is behind the first BEGIN or neither is there, and the content holds no END marker (ensure: the section is filled, or the content does not begin with one) |
| Text.StripExactly | scripts/wo_apply.py:66-66 | stripping removes white space from both ends, and no more |
| Text.SpacesExactly | scripts/wo_apply.py:66-66 | the code points that count as white space |
| WorkOrderRuns.ApplyOps | scripts/wo_apply.py:115-121 | the loop over patches, stopping at the first that raises |
| WorkOrderRuns.TidyPatch | scripts/wo_apply.py:62-80 | one patch settles its section, keeps the contents of all others, and keeps blocks whole and apart |
| WorkOrderRuns.RunSettlesAll | scripts/wo_apply.py:115-121 | after a work order over different sections each of them is settled, by whatever order of patches |
| WorkOrderRuns.SettledStays | scripts/wo_apply.py:67-80 | patching a settled section again changes nothing |
| WorkOrderRuns.RunNets | scripts/wo_apply.py:115-121 | a run makes of each section what its own patches make of its inside, one after the other |
| WorkOrderRuns.NetTwice | scripts/wo_apply.py:72-77 | what the patches of a section make of its inside, they make again of the result |
| WorkOrderRuns.PatchesCommute | scripts/wo_apply.py:62-80 | patches of different sections can be exchanged |
| WorkOrderRuns.WorkOrderIdempotent | scripts/wo_apply.py:115-121 | applying a whole work order again changes nothing, whatever sections were missing at first and however often each is patched |
| VersionLists.EnsureIndexAndChangelog | scripts/wo_apply.py:83-98 | the index is kept if a line mentions the version; else the line goes in behind a heading and one more line, as far as there are lines; the changelog gains its entry iff it does not mention the version |
| VersionLists.IndexGainsOneLine | scripts/wo_apply.py:83-91 | reading the index back, a new version has added one line and left the others as they were |
| VersionLists.LinesRoundTrip | scripts/wo_apply.py:85-91 | lines joined with line feeds are read back as the same lines |
| VersionLists.SplitAtBreak | scripts/wo_apply.py:85-85 | a line ends at the first boundary, and a carriage return with a line feed is one boundary |
| VersionLists.OccursInSomeLine | scripts/wo_apply.py:89-89 | a version on one line that occurs in the index text occurs in one of its lines |
| VersionLists.IndexIdempotentExactly | scripts/wo_apply.py:83-91 | extending the index twice is extending it once if and only if the version is on one line |
| VersionLists.ChangelogIdempotent | scripts/wo_apply.py:93-97 | extending the changelog twice is always extending it once, and it then mentions the version |

## Left out

- HTTP routing, middleware, environment variables, command lines, and the Redis, SQLite and file clients themselves.
- Wall clocks that run backwards, and floating-point rounding, `round(…, 6)` and `round(…, 2)` among it.
- Replay.JudgeServer.PostJudge: holds a SQLite store; the runs and their theorems cover Redis as well. Timestamps outside the range of `datetime`, and how long the payload's evaluation takes, are not modelled.
- RateLimiters.RedisRateLimiter.Allow: the script's text form of stored numbers is exact here.
- StageFiles.StageFile.WriteStageAtomic: leaves out the manifest's algorithm and time, modification times, key rotation during a run and newline translation on reading.
- Metering.FilterIdempotentWith: with the in-memory store; the SQLite store of the same interface is not modelled. Mixed time zones, where equal instants have different ISO texts, are not modelled either.
- Rating.MoreEventsNeverLowerBill: stated for events that leave no bucket contested, because the claim is false otherwise; the exact condition for each further event is NextEventNeverLowersExactly.
- PolicyDecision.Evaluate: leaves out purpose, metadata and error texts in the trace, and the evaluation of expressions.
- BucketPaging.GetPage: takes the rows already filtered by the request's window, and the instant of a token in whole seconds; etags, deltas and scores of the summary are left out, as are `apply_bucket_scores` and `pick_top_buckets`, which would add only sums and a sort.
- MetricKeys.MetricsRegistry.Inc: the registry keeps the queue of each metric as a value; `p95`, the snapshot and the text export are left out.
- EvidenceGC.Run: file name patterns are a predicate, and deleting the files is outside.
- WorkOrders.PatchIdempotentExactly: leaves out texts without the section whose end, together with the BEGIN that is appended, spells a second BEGIN; that takes a name with a line break and both angle brackets. Mode append is left out, since repeating it is meant to append again.
- WorkOrderRuns.WorkOrderIdempotent: one direction, for texts whose blocks are whole and apart, modes replace, upsert and ensure, content free of the markers of all patched sections, and section names on one line without angle brackets.
- `upsert_header_text`, which works by regular expressions, and the reading and writing around a work order.
- The edge list and `impact` of the graph, `calculate_backoff_ms`, the summaries of the judge's metrics, and the Redis alert limiter.
