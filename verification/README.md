# Verified models of the e621 feed server's stateful cores

This project models, in Dafny, the parts of the feed server where correctness is
a claim about a whole run or an unbounded input: the counters and caches kept
beside the database, the schedulers and samplers that build a candidate pool, the
limiters that protect the upstream, the import and media loops, and the browser's
event queue. Code that updates state in place is a class or a method with loops;
each is proved against a specification function, and what the server promises is
proved about that function over every input and every run.

Tables are maps and sets, one transaction is one atomic step, times are reals that
never go back, and floating-point values are exact reals or scaled integers. A
choice left to the engine, the hash map or the environment (ties under `ORDER BY`,
which of several equally old entries is evicted, whether a timer could be armed)
is either left open with `:|` or an input of the step, so each result holds for
every such choice.

## Modules

- `Cooccurrence`, `CooccurrenceBackfill`, `CooccurrenceRuns`, `BackfillPass`: pair counts by
  incremental upsert, by rebuild and by a resumable backfill with a durable watermark. An
  interrupted backfill is a history with `Abort` steps between commits; posts may be saved
  at any point of it, also between a pass reading a batch of ids and counting it. The
  imperative pass of `BackfillPass` is proved to be such a history, batch by batch.
- `FeedInteractions`, `SeenSets`, `HydrateCache`, `FeedService`: the interaction
  log, the per-tag aggregate maintained beside it, the seen caches, and the
  service operations that tie them together.
- `CandidateStreams`, `CandidatePool`: per-tag top-k queries merged into a global
  top-k, and the capped round-robin that drains the streams.
- `RecencyPick`: inverse-CDF sampling without replacement, weights scaled by n+1, and the
  generator's 2^64 states behind each draw.
- `RateLimit`, `LoadMonitor`: the token bucket with its two garbage collectors, and
  the gate that spaces outbound requests.
- `ResponseCache`: the response cache with If-None-Match revalidation (sections
  8.8.1, 13.1.2 and 15.4.5 of RFC 9110).
- `TagQuery`: the tag-query builder and its shared budget.
- `Pipeline`: the full and incremental favourites import.
- `MediaStore`: stored originals, their index and the LRU byte budget.
- `InteractionQueue`: the browser's batching queue.
- `OwnerToken`: the unpadded base64url printer (sections 3.2 and 5 of RFC 4648).
- `Wrappers`, `Sorting`, `Eviction`, `Totals`: an optional value, a comparison sort,
  "oldest n of a map", and the sum of a table column, shared by the others.

## Where the code does not do what its comments say, or a natural reading fails

- The limiter's header says that garbage collection drops full and idle buckets.
  A check always leaves a bucket below its burst, so that sweep never removes
  anything (`RateLimit.AgeSweepIsInvisible`); only the oversized branch bounds the
  table.
- "No backfill needed" implies a complete pair table but not the other way round:
  trailing posts without a pair ask for a pass over an already complete table
  (`CooccurrenceBackfill.NeededThoughComplete` says exactly when).
- The undo of an interaction matches tag rows by name alone. It keeps the
  aggregate in step exactly when no row of another group shares a name with the
  post and holds something to subtract (`FeedInteractions.UndoAgreesIff`), and over all
  runs exactly when no post carries the name of a catalogued tag without the tag
  (`FeedInteractions.EveryRunAgrees`).
- `tags.rs` says that `ON CONFLICT` handles a repeated account upsert. It adds
  again (`Cooccurrence.SavingTwiceDrifts`); the tables agree with a rebuild because
  each post is saved once.
- With two spellings of one term, the order of the words decides which spelling is a
  candidate for the query. `TagQuery.QueryOrderMattersIff` is the exact condition for
  the candidates, `TagQuery.SentQueryOrderMattersIff` for a query its budget does not cut.
- An origin may reuse an entity tag. A 304 extends the entry for another TTL, so it is
  not enough that the body is current when the tag comes back.
  `ResponseCache.RevalidationIsSoundIff` says for which origins runs are safe.
- The backfill's comments trust the watermark and the check for running jobs. Only a
  pass moves the watermark, so a post counted when it was saved above it is counted
  again by the pass of the next boot, with no job running
  (`CooccurrenceRuns.NextBootCountsTwice`); and a post the prefetchers save uncounted at
  or below it is never counted (`CooccurrenceRuns.PrefetchedPostStaysUncounted`).
  `CooccurrenceRuns.EveryRunIsExact` is the exact condition over whole histories.
- A budget of 2^63 bytes or more is negative after its cast and empties the media cache
  (`MediaStore.MediaCache.EvictToBudget`).
- A full import that fails leaves the pages served so far, and the next automatic run
  takes that prefix for the boundary and stops (`Pipeline.AbortedImportStaysPartial`).
  `Pipeline.CompleteIff` says when a run leaves nothing out.
- Removals delete files before rows, so one cut short between the two leaves rows
  without files (`MediaStore.InterruptedRemoval`).
- A batch whose request fails is dropped with a warning; it is not put back
  (`InteractionQueue.LossesAreFailedFlushes`).
- The media budget bounds the indexed bytes. They are the bytes on disk exactly
  while no file is orphaned, and `MediaStore.OrphansAppearExactlyWhen` lists the
  steps that orphan one, among them storing a post again under another extension.
- Recency-weighted picking draws 31 bits. Up to 37,836 candidates an earlier position is
  never less likely than a later one (`RecencyPick.EarlierIsLikelierInEveryPool`); in a far
  larger pool it can fall one draw behind (`RecencyPick.HugePoolCanInvert`).
- The gate's documentation promises that higher priorities may overtake. The code
  has one lock; the model lets it serve waiters in any order, so its bounds hold
  either way.

## Model

| member | source | states |
|---|---|---|
| CooccurrenceRuns.EveryRunIsExact | parser-api/src/db/cooccurrence_backfill.rs:239-338 | however passes start, read, commit, abort and restart, and whatever is saved in between, the committed table counts exactly the posts at or below the committed watermark if and only if, for every pair, its saves and the commits that passed over one balance |
| CooccurrenceRuns.DriftIsConserved | parser-api/src/db/cooccurrence_backfill.rs:239-338 | after any history the drift of each pair from its exact count is what its saves, and the commits that passed over one, contributed: passes and restarts neither cause nor repair any |
| CooccurrenceRuns.HarmlessHistoriesAreExact | parser-api/src/db/cooccurrence_backfill.rs:239-338 | every history whose saves are harmless and fall between passes is exact; without saves, every history |
| CooccurrenceRuns.SaveIsHarmlessIff | parser-api/src/db/tags.rs:208-289 | a save between passes keeps the table exact if and only if it is counted exactly when the post lies at or below the watermark, or brings no new pair: for new and already tagged posts, tracked or not |
| CooccurrenceRuns.SaveDriftSurvives | parser-api/src/db/tags.rs:208-289 | once later passes have nothing left to count, each pair is still off by exactly what the save put it off |
| CooccurrenceRuns.NextBootCountsTwice | parser-api/src/db/tags.rs:285-288 | after a finished backfill, a tracked save of a new post above the watermark ends with each of its pairs one too high, whatever passes run afterwards |
| CooccurrenceRuns.NextBootRuns | parser-api/src/db/cooccurrence_backfill.rs:206-216 | from every such state the pass of the next boot exists: one batch, after which nothing is left and each pair of the post is one too high |
| CooccurrenceRuns.PrefetchedPostStaysUncounted | parser-api/src/prefetch.rs:184-189 | an untracked save of a new post at or below the watermark leaves each of its pairs one too low for good |
| CooccurrenceRuns.DoubleCountHappens | parser-api/src/db/cooccurrence_backfill.rs:206-216 | a concrete database and history in which a pair is counted once too often |
| CooccurrenceBackfill.CommitKeepsExact | parser-api/src/db/cooccurrence_backfill.rs:279-321 | committing the next batch with its last id keeps the table exact up to the watermark and leaves strictly fewer posts beyond it, so a pass ends |
| CooccurrenceBackfill.FreshIsConsistent | parser-api/src/db/cooccurrence_backfill.rs:153-188 | an empty table with a watermark of -1, or with no state row, is exact up to its watermark for non-negative post ids |
| CooccurrenceBackfill.NotNeededMeansComplete | parser-api/src/db/cooccurrence_backfill.rs:206-216 | if no backfill is needed, the table is the exact count over all posts |
| CooccurrenceBackfill.CompleteIffNoPairsBeyond | parser-api/src/db/cooccurrence_backfill.rs:206-216 | the table is the full count exactly when no post beyond the watermark carries a pair |
| CooccurrenceBackfill.NeededThoughComplete | parser-api/src/db/cooccurrence_backfill.rs:206-216 | the exact condition under which a pass is asked for although the table is complete |
| CooccurrenceBackfill.SingleTagPostAsksForAPass | parser-api/src/db/cooccurrence_backfill.rs:206-216 | a concrete database in which that happens |
| BackfillPass.GlobalGraph.Backfill | parser-api/src/db/cooccurrence_backfill.rs:239-338 | one pass under any failing batches fails exactly at the first of them and keeps every batch before it: n rounds move the watermark over exactly 200n posts (the last batch perhaps short), and what is durable is the end of a run of n reads and commits; success means nothing is left and the full count is exact |
| BackfillPass.GlobalGraph.CountBatch | parser-api/src/db/cooccurrence_backfill.rs:305-318 | the statements of one transaction add every pair of every post of the batch once |
| BackfillPass.GlobalGraph.CountPost | parser-api/src/db/cooccurrence_backfill.rs:306-317 | upserting one post's joined pairs, in any order, raises each of its pairs by one and no other row |
| Cooccurrence.IncrementalMatchesRebuild | parser-api/src/db/cooccurrence.rs:23-81 | upserting each saved post once, in any post and tag order, yields the very table the rebuild computes from scratch |
| Cooccurrence.SavesAreExact | parser-api/src/db/cooccurrence.rs:23-81 | after any such sequence every count is the number of saved posts carrying both tags, with no other row |
| Cooccurrence.UpsertAddsPost | parser-api/src/db/cooccurrence.rs:28-79 | an upsert adds one to each pair of the post and nothing else, and raises the sum of counts by n(n-1)/2 |
| Cooccurrence.RebuildIsExact | parser-api/src/db/cooccurrence.rs:143-160 | the grouped self-join yields the exact count over the account's posts |
| Cooccurrence.SavingTwiceDrifts | parser-api/src/db/tags.rs:289-295 | saving a post a second time keeps the count exact if and only if it has fewer than two tags |
| Cooccurrence.CooccurrenceTables.CollectPairs | parser-api/src/db/cooccurrence.rs:31-41 | the two nested loops compute the specified pair list |
| Cooccurrence.CooccurrenceTables.UpsertInChunks | parser-api/src/db/cooccurrence.rs:43-79 | chunking at any size equals one statement over all pairs |
| Cooccurrence.CooccurrenceTables.UpsertAccountCooccurrencePairs | parser-api/src/db/cooccurrence.rs:23-81 | one account gains exactly the post's pairs, the sum rises by n(n-1)/2, other accounts keep their rows |
| Cooccurrence.CooccurrenceTables.UpsertCooccurrencePairs | parser-api/src/db/cooccurrence.rs:83-128 | the same for the global table |
| Cooccurrence.CooccurrenceTables.SetAccountTagCooccurrence | parser-api/src/db/cooccurrence.rs:130-174 | whatever was there, the account's rows become the exact count and no other account changes |
| FeedInteractions.EveryRunAgrees | parser-api/src/db/feed.rs:16-398 | after every sequence of records, batches, undos, clears, prunes and restores the aggregate is what a rebuild would compute, up to all-zero rows, if and only if no post carries the name of a catalogued tag without the tag |
| FeedInteractions.UndoAgreesIff | parser-api/src/db/feed.rs:134-156 | undo keeps it if and only if the name-only match reaches no row of another group with something to subtract |
| FeedInteractions.UndoAgrees | parser-api/src/db/feed.rs:134-156 | with such a catalogue, undo always keeps agreement |
| FeedInteractions.OneGroupNamesComeTogether | parser-api/src/db/feed.rs:889-892 | a catalogue with each tag name in one group is such a catalogue |
| FeedInteractions.SharedNameBreaksUndo | parser-api/src/db/feed.rs:146-156 | from any agreeing state, recording two posts that share a tag name across groups, not both tags on the first, and undoing the first makes the aggregate disagree |
| FeedInteractions.UndoInvertsRecord | parser-api/src/db/feed.rs:119-173 | undoing a fresh record restores the log and every count; the exposure table is restored exactly if the post had no exposure before |
| FeedInteractions.RecordIsRecorded | parser-api/src/db/feed.rs:35-102 | a new event gains its log row and exposure and adds one impression or one positive to each tag of its post for its account; a repeated one changes nothing; no other row moves |
| FeedInteractions.UndoIsUndone | parser-api/src/db/feed.rs:134-166 | an undo removes the event's log row and the exposure of its post, and subtracts from exactly the account's rows whose name a tag of the post bears |
| FeedInteractions.ClearForgets | parser-api/src/db/feed.rs:359-394 | after a clear no log key, feedback row or exposure belongs to the account and every row of other accounts is unchanged |
| FeedInteractions.ClampNeverFires | parser-api/src/db/feed.rs:146-156 | a logged event's own tag rows always hold at least what its undo subtracts |
| FeedInteractions.RebuildAgrees | parser-api/src/db/feed.rs:310-342 | a rebuild restores agreement whatever the account's rows held |
| FeedInteractions.RetriesAndReorderingsAgree | parser-api/src/db/feed.rs:491-541 | two batches naming the same events log the same keys and leave the same counts, and sending one after the other changes nothing |
| FeedInteractions.RecordsExposeNewEvents | parser-api/src/db/feed.rs:502-549 | recording one at a time exposes exactly the new events, one log row each |
| FeedInteractions.ExposureOrderIsIrrelevant | parser-api/src/db/feed.rs:543-549 | upserting the same exposures in another order leaves the same rows |
| FeedService.FeedStore.RecordFeedInteraction | parser-api/src/db/feed.rs:16-115 | a new event is logged with its position and time, exposed, and credited to each of the post's tags, all else as it was; both caches merge the post only for a new row, a step of the seen-set machine; out of scope changes nothing |
| FeedService.FeedStore.InsertBatch | parser-api/src/db/feed.rs:491-541 | the insert loop equals recording one by one and groups the new posts per account |
| FeedService.FeedStore.ExposeBatch | parser-api/src/db/feed.rs:543-549 | exposing account by account, in any account order, equals exposing event by event |
| FeedService.FeedStore.UpsertShownPosts | parser-api/src/db/feed.rs:706-725 | one exposure upsert per post, in order, all of them counted |
| FeedService.FeedStore.MergeBatch | parser-api/src/db/feed.rs:553-560 | merging account by account, in any order, merges all new posts at once |
| FeedService.FeedStore.RecordFeedInteractionsBatch | parser-api/src/db/feed.rs:426-565 | a batch is the fold of single records on all three tables, counts its new rows, merges exactly those posts (a step of the seen-set machine), and refuses the whole batch if any account is out of scope |
| FeedService.FeedStore.RemoveFeedInteraction | parser-api/src/db/feed.rs:119-173 | a logged event leaves the log, its exposure goes and each feedback row named as one of the post's tags loses what the event gave, at least down to zero; both caches of the account are dropped, a step of the seen-set machine; an unknown event changes nothing |
| FeedService.FeedStore.ClearFeedInteractions | parser-api/src/db/feed.rs:346-398 | no log key, feedback row or exposure of the account is left, every other row is as it was, both caches drop the account, and the number of its log rows is returned: a step of the seen-set machine |
| FeedService.FeedStore.PruneShownPosts | parser-api/src/db/feed.rs:728-741 | exposures last shown before the retention cutoff go, all others stay, and the row counts before and after are returned |
| FeedService.FeedStore.SeenPostIds | parser-api/src/db/feed.rs:640-687 | a warm entry is answered from the cache, anything else from the tables and then cached |
| SeenSets.EveryReadIsSandwiched | parser-api/src/db/feed.rs:640-687 | after any run every read contains the query's answer for today's cutoff and is the query's answer for the cutoff of a moment less than one TTL ago |
| SeenSets.ShippedReadsAreSandwiched | parser-api/src/db/feed.rs:607-626 | the same for the shipped TTLs of 20 and 30 seconds, 90-day prunes and any window up to 60 days of 24 hours |
| SeenSets.ClearedAccountReadsEmpty | parser-api/src/db/feed.rs:346-398 | from any tables and caches: after a clear, and until something is recorded for the account, every read of it is empty, whatever other steps run |
| SeenSets.ReadIsRemembered | parser-api/src/db/feed.rs:640-687 | what a missed read found is cached: for one TTL, over any run that does not undo, clear or evict the account, reads are warm and hold at least that set |
| SeenSets.EveryRunIsExact | parser-api/src/db/hydrate_cache.rs:39-96 | over any run every warm entry holds exactly the query's answer for the cutoff it was built with |
| SeenSets.RestoreIsNotMerged | parser-api/src/db/feed.rs:265-305 | after a restore a warm entry is exact if and only if it already holds the post of every counted item of the import that is inside its window and names a key neither logged nor named by an earlier item |
| SeenSets.RestoreIsMissedByAWarmEntry | parser-api/src/db/feed.rs:265-305 | a concrete warm entry that misses a restored sighting |
| HydrateCache.SetCache.Lookup | parser-api/src/db/hydrate_cache.rs:39-47 | only an entry younger than the TTL answers, with its set |
| HydrateCache.SetCache.Put | parser-api/src/db/hydrate_cache.rs:49-108 | expired entries go and only the oldest excess entries leave, down to 1024; the new entry is in unless the cache is full of entries as new |
| HydrateCache.SetCache.MergeInto | parser-api/src/db/hydrate_cache.rs:85-96 | a warm entry gains the ids and keeps its age; any other is untouched |
| HydrateCache.SetCache.Clear | parser-api/src/db/hydrate_cache.rs:75-79 | exactly the key's entry leaves |
| CandidateStreams.LocalCandidatesForTagNames | parser-api/src/db/feed.rs:906-933 | the result is the newest k of all live, previewable posts carrying any of the tags |
| CandidateStreams.FetchingPerTagLosesNothing | parser-api/src/db/feed.rs:911-931 | cutting every per-tag query at k does not change the global newest k |
| CandidateStreams.EligibleIsServable | parser-api/src/db/feed.rs:911-926 | what the queries may return is exactly the live posts with a preview that carry one of the tags |
| CandidateStreams.LocalCandidatesBacklog | parser-api/src/db/feed.rs:985-1038 | under any tie-breaking of the per-tag queries the output is duplicate-free, ranked by favourites then id, nothing omitted has strictly more favourites than anything returned, and nothing is omitted while there is room |
| CandidatePool.CollectCandidateIds | parser-api/src/db/feed.rs:1172-1207 | the pool is duplicate-free, within the limit, max-min fair, each slot the best remaining id of a stream within its cap; a short pool means every stream is capped or contained |
| CandidatePool.DrawFresh | parser-api/src/db/feed.rs:1194-1201 | duplicates are skipped without charge up to the first id outside the pool |
| RecencyPick.WeightedRecencyPick | parser-api/src/prefetch.rs:393-441 | the in-place loops compute the specified sequence of picks, one new generator state per round |
| RecencyPick.PicksExactly | parser-api/src/prefetch.rs:393-441 | min(rounds, unpicked) new positions come on, none goes off, none at or past n changes |
| RecencyPick.SelectionIsProportional | parser-api/src/prefetch.rs:417-439 | in each round the number of 31-bit draws selecting an unpicked position differs by at most one from 2^31 times its share of the weight |
| RecencyPick.SelectingDrawsFormARange | parser-api/src/prefetch.rs:426-439 | those draws are exactly the interval between two cumulative shares |
| RecencyPick.LcgIsAPermutation | parser-api/src/prefetch.rs:425 | the generator's step is a permutation of the 64-bit states |
| RecencyPick.DrawIsABand | parser-api/src/prefetch.rs:417-426 | a state yields draw d exactly when it lies in the d-th band of 2^33 states |
| RecencyPick.StatesAreProportional | parser-api/src/prefetch.rs:417-439 | of the 2^64 states, the number selecting an unpicked position is 2^64 times its share of the weight to within one band of 2^33 |
| RecencyPick.EarlierIsLikelier | parser-api/src/prefetch.rs:428-437 | of two unpicked positions the earlier has at least as many draws as the later whenever the total weight is at most 2^31 times their distance, and never more than one fewer |
| RecencyPick.EarlierIsLikelierInEveryPool | parser-api/src/prefetch.rs:386-390 | so in every pool of up to 37,836 candidates, whatever is picked, at least as many states select the earlier one |
| RecencyPick.HugePoolCanInvert | parser-api/src/prefetch.rs:428-437 | a concrete pool in which position 2 has one draw more than position 1 |
| RecencyPick.WeightIsRecency | parser-api/src/prefetch.rs:429-434 | the scaled weights are n+1 times 1 + (1 - i/(n+1)) |
| RecencyPick.EachRoundDrawsAnew | parser-api/src/prefetch.rs:402-440 | after k rounds the next one selects by the draw of the (k+1)-th state of the generator among what is still unpicked |
| RecencyPick.FirstPickFromStateOne | parser-api/src/prefetch.rs:417-439 | a concrete pick that is not the first position |
| RecencyPick.PickOne | parser-api/src/prefetch.rs:428-439 | the scan turns on exactly the first position whose cumulative share reaches the draw's |
| RateLimit.GrantsInAnyWindow | parser-api/src/ratelimit.rs:56-91 | over any stretch of any run without an oversized eviction of the key, grants are at most max(burst, 1) + rate * time |
| RateLimit.GrantsWithEvictions | parser-api/src/ratelimit.rs:56-144 | over any stretch of any run, grants are at most (evictions of the key + 1) * max(burst, 1) + rate * time |
| RateLimit.RefusedIffOverdrawn | parser-api/src/ratelimit.rs:56-91 | without such an eviction, a key new at the start is refused if and only if over some stretch up to now it was granted more than max(burst, 1) + rate * time - 1: nothing is held back either |
| RateLimit.RefusalsCostNothing | parser-api/src/ratelimit.rs:72-79 | leaving out a key's refused checks changes no other verdict of the run, for that or any other key, whatever is evicted |
| RateLimit.EveryRunIsReachable | parser-api/src/ratelimit.rs:56-144 | every run keeps tokens in [0, burst) and the table within 50,000 entries |
| RateLimit.AgeSweepIsInvisible | parser-api/src/ratelimit.rs:139-142 | in a reachable table the age-based sweep removes nothing |
| RateLimit.AgeGcNeverMatters | parser-api/src/ratelimit.rs:95-144 | a run with the age-based collection removed ends in the same table |
| RateLimit.AgeGcChangesNoVerdict | parser-api/src/ratelimit.rs:95-144 | and every check of the run, for every key, comes out the same |
| RateLimit.RateLimiter.Check | parser-api/src/ratelimit.rs:56-91 | the verdict and the new table are those of the specified step, eviction being a legal oldest half |
| RateLimit.RateLimiter.Sweep | parser-api/src/ratelimit.rs:128-143 | of more than 50,000 buckets half go, none of them refilled later than one that stays; otherwise exactly the full ones idle for over 15 minutes go |
| RateLimit.RateLimiter.PruneBuckets | parser-api/src/ratelimit.rs:95-118 | the forced prune is the same sweep, with sizes before and after |
| LoadMonitor.PassesStaySpaced | parser-api/src/load_monitor.rs:193-230 | over every interleaving consecutive passes are at least the earlier one's delay apart |
| LoadMonitor.WindowAdmits | parser-api/src/load_monitor.rs:193-230 | any window of any run admits at most 1 + span/d_min passes |
| LoadMonitor.DelaysAreConserved | parser-api/src/load_monitor.rs:193-230 | over every interleaving the delays of the passes and of those still waiting are exactly those fixed on arrival, each once: nobody waits for more or less than was fixed |
| LoadMonitor.DelayIsMadeOf | parser-api/src/load_monitor.rs:196-219 | the delay is the priority's base times 5, 3, 2 or 1 at 50, 100, 200 or more requests left (2 when unknown), plus what is left of the live window, between 50 and 2000 ms, for background traffic inside it |
| LoadMonitor.EstimateIsObservedMinusPasses | parser-api/src/load_monitor.rs:84-114 | the estimate is the last observed value minus the passes since, floored at zero, exactly until the 32-bit counter wraps to a value still below it |
| LoadMonitor.AdaptiveGate.Arrive | parser-api/src/load_monitor.rs:193-219 | the delay fixed on arrival is base times multiplier plus the live-window extra, and the gate moves by the machine's arrival step |
| LoadMonitor.AdaptiveGate.Serve | parser-api/src/load_monitor.rs:221-230 | the lock holder never passes before the gate opens, closes it for its delay and is counted: an enabled step of the machine |
| LoadMonitor.E621LoadMonitor.ObserveRemaining | parser-api/src/load_monitor.rs:84-87 | an observation replaces the base and resets the counter |
| LoadMonitor.E621LoadMonitor.RecordPass | parser-api/src/load_monitor.rs:96-103 | a pass is counted with wrap-around and a live pass is remembered |
| LoadMonitor.E621LoadMonitor.EstimatedRemaining | parser-api/src/load_monitor.rs:107-114 | unknown stays unknown, otherwise the saturating difference |
| ResponseCache.NoStaleBodies | parser-api/src/api.rs:267-358 | over any sequence of gets, prunes, idle evictions, removals and origin changes, every body handed out was the origin's within the last TTL, or is now; a bypassed one is the origin's now |
| ResponseCache.CacheStaysBounded | parser-api/src/api.rs:200-236 | with a fixed limit no run exceeds it |
| ResponseCache.BypassLeavesNoTrace | parser-api/src/api.rs:286-290 | a bypassed fetch leaves entries and idle timer as they were |
| ResponseCache.FetchedBodyIsKept | parser-api/src/api.rs:228-235 | a body fetched outside the bypass is in the cache with its tag and time over every run that does not drop or replace it: for one TTL gets answer with it and ask nothing, whatever the origin would say, and then its tag is the validator |
| ResponseCache.WeakValidatorsServeStaleBodies | parser-api/src/api.rs:310-318 | a concrete origin sharing one entity tag between two bodies, for which a 304 hands out a body it no longer has |
| ResponseCache.RevalidationIsSoundIff | parser-api/src/api.rs:267-358 | for any origin: no run of gets with one TTL hands out a body older than the TTL if and only if an entity tag seen again after a full TTL always comes with a body that stays current, within the TTL, for another |
| ResponseCache.OneRevalidationIsSoundIff | parser-api/src/api.rs:310-318 | for a single get from a cache no 304 has touched, it is enough that the body is current within the TTL when its tag comes back |
| ResponseCache.SoundRevalidationStaleHit | parser-api/src/api.rs:310-318 | a concrete origin that meets the condition for one get and fails the one for runs |
| ResponseCache.ApiCache.Lookup | parser-api/src/api.rs:66-78 | only a fresh entry answers, and only an answer touches the idle timer |
| ResponseCache.ApiCache.Insert | parser-api/src/api.rs:200-236 | with a TTL and room for entries, the URL then holds this body and tag as of now; a cache that was not full keeps all others, a full one exactly those unexpired and not among its oldest tenth plus one |
| ResponseCache.ApiCache.Prune | parser-api/src/api.rs:150-161 | exactly the expired entries go, without touching the idle timer, and the entry counts before and after are returned |
| ResponseCache.ApiCache.EvictIfIdle | parser-api/src/api.rs:169-198 | an idle non-empty cache is emptied, the timer reset and the dropped count returned; otherwise nothing changes |
| ResponseCache.ApiCache.Remove | parser-api/src/api.rs:87-90 | exactly the URL's entry goes, without touching the idle timer |
| ResponseCache.ApiCache.Clear | parser-api/src/api.rs:82-85 | every entry goes, without touching the idle timer |
| ResponseCache.ApiCache.FetchConditional | parser-api/src/api.rs:267-358 | what is asked of the origin with which validator, what is answered and what is stored, each stated for a hit, a 304, a success, a bypass and a failure |
| TagQuery.BuildTagQuery | parser-api/src/api.rs:1104-1199 | the builder's groups are the budget's cut of the collected terms, pairwise distinct ignoring case and at most forty; for inputs without white space, splitting the text gives back exactly those terms and the two parentheses |
| TagQuery.CutToBudget | parser-api/src/api.rs:1158-1193 | the counting loops take exactly the prefixes the budget allows |
| TagQuery.QueryFitsTheBudget | parser-api/src/api.rs:1158-1193 | terms, boosts and exclusions respect their limits, with a limit clamped to 40 and no exclusion budget for a cap of 0, and each group is a prefix of its candidates |
| TagQuery.HigherGroupsComeFirst | parser-api/src/api.rs:1158-1193 | an exclusion implies all requirements, a boost or a requirement implies all search terms, and a term is dropped only when its budget or the limit is used up |
| TagQuery.CollectedTermsAreDistinct | parser-api/src/api.rs:1116-1151 | no term repeats another in any group, whatever its case |
| TagQuery.ExclusionSurvivesIffUnmentioned | parser-api/src/api.rs:1128-1151 | an exclusion is a candidate exactly when no search term, boost (even one refused for its syntax) or requirement mentions it |
| TagQuery.TermsSurviveIff | parser-api/src/api.rs:1116-1146 | a search word is a candidate exactly when it is the first spelling of a term, a required term exactly when moreover no search word or boost mentions it |
| TagQuery.LowersMatchIff | parser-api/src/api.rs:1118 | two words count as one term exactly when they differ only in the case of ASCII letters |
| TagQuery.SpacesGo | parser-api/src/api.rs:1129 | trimming drops exactly the white space at both ends |
| TagQuery.DashesGo | parser-api/src/api.rs:1118 | stripping drops exactly the leading dashes |
| TagQuery.QueryIgnoresTermOrder | parser-api/src/api.rs:1153-1155 | while every term no earlier group mentions has one spelling within its group, order and repetition of search and blacklist terms do not change the query |
| TagQuery.QueryOrderMattersIff | parser-api/src/api.rs:1116-1155 | no rearrangement of the search words or of either half of the blacklist changes the candidates if and only if that holds |
| TagQuery.SentQueryOrderMattersIff | parser-api/src/api.rs:1104-1199 | for a query that fits its budget, the same if-and-only-if holds of the groups sent |
| TagQuery.OrderMattersIffTwoSpellings | parser-api/src/api.rs:1116-1155 | the same for one sorted group and any set of terms already seen |
| TagQuery.TwoSpellingsDependOnOrder | parser-api/src/api.rs:1116-1122 | swapping two spellings of an unseen term ahead of any other terms changes the sorted group |
| TagQuery.TextReadsBack | parser-api/src/api.rs:1158-1198 | for groups of words, the joined text splits back into the four groups in order, with the two parentheses |
| TagQuery.KeptInArrivalOrder | parser-api/src/api.rs:1116-1122 | what the shared set keeps stands in the caller's order, each term in its first spelling |
| TagQuery.BoostsKeepCallerOrder | parser-api/src/api.rs:1127-1135 | the boost candidates are exactly the first spellings, free of query syntax and not searched for, of the caller's ranked tags, in the caller's order |
| TagQuery.Dedup | parser-api/src/api.rs:1116-1122 | the filtering loop computes the kept terms and the grown set |
| TagQuery.DedupBoosts | parser-api/src/api.rs:1127-1135 | a boost with query syntax is entered into the set but not kept |
| Pipeline.IncrementalIsComplete | parser-api/src/pipeline.rs:428-515 | from a suffix-owned local set, with every page served and at most 200 pages of new posts, the walk saves exactly the new posts, once each and in order, ends owning everything, and asks for no page past the first holding an owned post |
| Pipeline.CompleteIffTailOwned | parser-api/src/pipeline.rs:428-515 | with every page served, the walk ends owning everything if and only if every post past the page of the first owned post (or past page 200) was owned already |
| Pipeline.CompleteIff | parser-api/src/pipeline.rs:428-515 | in any weather: if and only if no failed page held a new post and every post past the last page was owned already |
| Pipeline.FreshIffNothingLost | parser-api/src/pipeline.rs:444-493 | in any weather, what is saved is everything new on the pages asked for if and only if no failed page held anything new |
| Pipeline.SavedPlusLost | parser-api/src/pipeline.rs:444-493 | in any weather, saved posts and new posts on failed pages add up to the new posts of the pages asked for |
| Pipeline.ServedIffNothingLost | parser-api/src/pipeline.rs:320-377 | the same for a full run: the head of the list is saved whole if and only if no failed page held a post |
| Pipeline.RunIncrementalFetch | parser-api/src/pipeline.rs:400-516 | saves the unowned posts of the served pages asked for, succeeding or not; success is the walk to the first stopping page or the cap, failure ends at the first malformed page or second failure in a row |
| Pipeline.RunFullFetch | parser-api/src/pipeline.rs:309-378 | success exactly when no page is malformed and no two in a row fail; the served pages asked for are saved in order even on failure, and the whole head exactly when no failed page held a post |
| Pipeline.PageCountCovers | parser-api/src/pipeline.rs:174-182 | the page count covers the list with no page to spare, unless the cap of 500 applies |
| Pipeline.OwnedHoleHidesOlderPosts | parser-api/src/pipeline.rs:505-512 | a concrete local set with a hole for which older new posts are never fetched |
| Pipeline.IsolatedFailureLosesItsPage | parser-api/src/pipeline.rs:444-471 | a concrete run that skips one failed page and still succeeds without its posts |
| Pipeline.Library.Process | parser-api/src/pipeline.rs:204-277 | any requested mode, from any local set, for any list, profile count and failures: the mode run, automatic being full on an empty local set and incremental otherwise, and in that mode all that a full or an incremental run guarantees |
| Pipeline.Library.FullRun | parser-api/src/pipeline.rs:230-271 | a full run forgets the local set and ends, succeeding or not, with the posts of the pages served so far; these are all favourites if and only if no failed page held a post and the pages reach the end |
| Pipeline.Library.IncrementalRun | parser-api/src/pipeline.rs:264-275 | an incremental run only adds, and adds what the walk saved, succeeding or not; it ends complete under the exact conditions above |
| Pipeline.AbortedImportStaysPartial | parser-api/src/pipeline.rs:91-98 | for the prefix an aborted full run leaves, the next automatic run is incremental, stops on page 1 and saves nothing: complete only if the prefix was the whole list |
| Pipeline.FullRunReachesTheEnd | parser-api/src/pipeline.rs:174-182 | the page count reaches the end of the counted list if and only if it fits 500 pages |
| Pipeline.SuffixMeansTailOwned | parser-api/src/pipeline.rs:428-515 | an owned suffix behind at most 200 pages of new posts meets the tail condition |
| MediaStore.EveryRunAgrees | parser-api/src/media_store.rs:85-208 | after any sequence of stores, touches, evictions, deletions and clears, each complete or cut short at any point, every row points at a file holding that post's last stored bytes with their size, unless a step of the run was a harmful interruption |
| MediaStore.StepKeepsAgreementIff | parser-api/src/media_store.rs:85-208 | each step keeps that if and only if it is not one of the two harmful interruptions |
| MediaStore.FirstHarmBreaksAgreement | parser-api/src/media_store.rs:85-208 | after a run without one, the next step parts rows and files if and only if it is a harmful interruption |
| MediaStore.StoredStays | parser-api/src/media_store.rs:85-208 | once stored, a post's bytes are found through its row for as long as nothing removes it or stores it anew, whatever happens to other posts and however their stores and removals are cut short |
| MediaStore.UsedLeavesLast | parser-api/src/media_store.rs:147-181 | a post stored or served after all others were is evicted only together with all of them |
| MediaStore.InterruptedRemoval | parser-api/src/media_store.rs:167-208 | if rows are not deleted after their files, rows and files agree if and only if none of those files went |
| MediaStore.PathsAreNeverShared | parser-api/src/media_store.rs:62-81 | two posts never share a path, whatever their extensions |
| MediaStore.TempIsNeverFinal | parser-api/src/media_store.rs:85-100 | a temporary path is no post's final path |
| MediaStore.PathIsSharded | parser-api/src/media_store.rs:59-64 | the path of a non-negative id is its last two digits, the id and the extension |
| MediaStore.OrdinaryExtensionIsKept | parser-api/src/media_store.rs:66-81 | an extension of up to 12 letters, digits and underscores is kept as it is, and one without any becomes bin |
| MediaStore.IndexWriteFailure | parser-api/src/media_store.rs:106-117 | if the index write fails after the rename, rows and files agree exactly unless the post had a row at that path with other bytes |
| MediaStore.OrphansAppearExactlyWhen | parser-api/src/media_store.rs:85-208 | the exact steps after which some file has no row |
| MediaStore.IndexedBytesAreDiskBytes | parser-api/src/media_store.rs:143-145 | without orphans the indexed total is the total size of the files on disk |
| MediaStore.MediaCache.StoreOriginal | parser-api/src/media_store.rs:85-117 | write, rename and index in order, or stop at the given failure |
| MediaStore.MediaCache.TouchMediaEntry | parser-api/src/db/media.rs:61-72 | only the time of the post's row changes, and nothing for a post without a row |
| MediaStore.MediaCache.OldestMediaEntries | parser-api/src/db/media.rs:117-137 | n distinct rows, oldest first, none newer than a row left out |
| MediaStore.MediaCache.CountMediaBytes | parser-api/src/db/media.rs:75-83 | the sum over all rows, in any scan order |
| MediaStore.MediaCache.RemovePosts | parser-api/src/media_store.rs:167-178 | files that do not resist go, then all the rows, unless the row delete fails |
| MediaStore.MediaCache.DeleteAndUnindex | parser-api/src/media_store.rs:186-195 | true exactly for a post with a row, whose file and row then go |
| MediaStore.MediaCache.ClearCache | parser-api/src/media_store.rs:197-208 | all files that do not resist and all rows go and are counted; if the rows cannot be deleted they stay |
| MediaStore.MediaCache.EvictBatch | parser-api/src/media_store.rs:162-178 | one round removes the rows and files of the sixteen least recently used posts, or of all; a file that resists stays, and if the row delete fails the rows do |
| MediaStore.MediaCache.EvictRounds | parser-api/src/media_store.rs:157-180 | batch after batch until the total fits, nothing is left or a row delete fails |
| MediaStore.MediaCache.EvictToBudget | parser-api/src/media_store.rs:151-181 | ends at or under the budget unless a row delete fails; exactly the evicted posts' files go, save those that resist; nothing evicted is newer than anything kept, the count is the rows removed, restoring the last batch would exceed the budget, nothing goes when the total already fits or the budget is off, rows and files agree unless a failed round removed a file, and a budget of 2^63 or more, negative after the cast, empties the cache |
| InteractionQueue.NothingIsLostOrReordered | parser-web/src/interaction_queue.rs:47-226 | over every run, batches handed to the browser followed by the buffer are the pushed sequence; batches hold 1 to 60 events and pass the server's size check, and a non-empty buffer has a timer |
| InteractionQueue.HandoffsAreBatches | parser-web/src/interaction_queue.rs:47-226 | over every run, each hand-off is the batch its steps call for: the events pushed since the flush before, the URL of the push that supplied the first of them, and the outcome its flush met |
| InteractionQueue.LossesAreFailedFlushes | parser-web/src/interaction_queue.rs:83-159 | over every run, the events lost are exactly those pushed since the flush before a flush whose request failed; none is lost if and only if every flush with something to send gets through |
| InteractionQueue.InteractionBuffer.Enqueue | parser-web/src/interaction_queue.rs:47-65 | a push appends, then flushes or arms the timer, as specified |
| InteractionQueue.InteractionBuffer.Flush | parser-web/src/interaction_queue.rs:68-81 | the timer is cleared and the buffer handed over once |
| InteractionQueue.InteractionBuffer.FlushKeepalive | parser-web/src/interaction_queue.rs:119-159 | an unload hands the buffer over, delivered or not |
| InteractionQueue.InteractionBuffer.OnTimer | parser-web/src/interaction_queue.rs:195-198 | a firing timer flushes |
| InteractionQueue.InteractionBuffer.ScheduleDebounce | parser-web/src/interaction_queue.rs:190-212 | an armed timer is kept, a refused one flushes at once |
| InteractionQueue.InteractionBuffer.ClearTimer | parser-web/src/interaction_queue.rs:215-226 | no timer remains |
| OwnerToken.DecodeInvertsEncode | parser-api/src/main.rs:488-513 | an unpadded base64url decoder recovers every byte sequence |
| OwnerToken.EncodeInvertsDecode | parser-api/src/main.rs:488-513 | only the printer's own spelling decodes, so the two are exact inverses |
| OwnerToken.EncodedLength | parser-api/src/main.rs:488-513 | n bytes print as ceil(4n/3) characters |
| OwnerToken.AlphabetIsTheTable | parser-api/src/main.rs:489 | the constant lists the table of section 5 of RFC 4648 in order |
| OwnerToken.Base64UrlEncode | parser-api/src/main.rs:488-513 | the loop prints the specified text, which decodes back to its input |
| OwnerToken.MintOwnerToken | parser-api/src/main.rs:481-486 | every 32-byte mint is 43 characters, passes the token check and decodes back to its bytes |

## Left out

- Ranking of tags by IDF, the float stream-cap formula, the recent-popular stream and
  the assembly of the streams in `collect_candidate_ids`: the pool takes any list of
  capped streams as input.
- Scoring, diversification and the tag-relation graph: their code is not part of this model.
- Float rounding in the limiter and the sampler: both are modelled exactly.
- Text comparison of RFC 3339 timestamps, the `last_interaction_at` and
  `last_decayed_at` columns, and feedback decay: times are abstract and nothing decays.
- `account_tag_feedback.negative_count`: no event changes it, so it stays zero in the model.
- The `feed_sessions` and `feed_session_posts` rows that a clear also deletes: the model
  has no sessions.
- SQLite itself: transactions are atomic and statements do what SQL says. A restore's
  insert and rebuild, and a rebuild's delete and insert, are two transactions each in the
  code and one step here.
- Interleaved cache readers and writers: service operations are atomic, so a stale set
  stored by a slow reader is not modelled. Nor are the owned-post and candidate caches.
- The two stores of `observe_remaining`: one step here.
- Requests to the origin are sequential and instantaneous: the time between sending a
  validator and receiving the answer is not modelled.
- `blacklist::query_terms`: its two halves are inputs, and required terms are non-empty.
  Lowering is ASCII, as in the code; white space is Unicode White_Space.
- `std::path::Path::with_extension` and the traversal checks of `stored_path`: the
  temporary name is the final name with `.tmp` appended, and generated paths pass the checks.
- Errors of the two queries of `evict_to_budget`, which end its loop early; a failing row
  delete is modelled.
- JSON encoding, HTTP, retries, job bookkeeping, logging and metrics.
- The scope check of the feed operations: whether a token may address an account is an input.
- The check for running jobs before a backfill starts: `CooccurrenceRuns` lets saves and
  passes interleave freely and says what each costs.
- Saves while the backfill's state row is missing (the migration puts it there), and the
  two reads of a save, its own transaction being one step.
