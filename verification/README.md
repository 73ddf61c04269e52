# Verified model of the Mesh MCP server

The Mesh MCP server lets agents work with a Mesh workspace over the Model Context
Protocol. This project models the parts of it whose correctness is not visible in any
one function, and proves what they promise for every input, every run and every
interleaving. `dafny verify dfyconfig.toml` checks all of it.

| part | modules |
|---|---|
| Conditional `get_my_tasks` | `ActiveTasks`, `SnapshotCache`, `SnapshotDelta`, `MyTasksRender`, `MyTasksPlain`, `MyTasksRun`, `MyTasksLimits` |
| Bounded retry of 429 reads | `Retry429` (one call), `RetrySlots` (many calls) |
| Authentication gate | `RateLimit`, `SessionCache`, `AuthGate` (many requests over time), `AuthCharging`, `AuthEviction` |
| Deferred authentication | `DeferredAuth` |
| Recall ordering and graph merge | `RecallRerank`, `GraphMerge` |
| Paging and tree builders | `ListTasksPage`, `CommentsAfter`, `DocThreads`, `DocForest`, `DocPaths` |
| Shared | `Json`, `MapSum`, `StableSort`, `Wrappers` |

Objects whose methods update fields are classes, algorithms that work in place keep
their arrays, and each such method is proved equal to a function or relation on values;
the lemmas are about those. Concurrent code is a step relation with an invariant over
every run.

The central result is `MyTasksRun.RunAgrees`. A consumer keeps its list on "unchanged",
rebuilds it from a delta and replaces it on cold. After every answer it shows the
snapshot of that call: the items a cold answer would list, in that order, each as the
snapshot has it with or without its description, and the cold envelope. The status
lookups behind the selection are those of the call, or after "unchanged" those behind the
list it already had. A delta it cannot apply makes it start over. Nothing is assumed about
the cache between calls, so expiry, eviction, restarts, other scopes and corrupt entries
are all covered, and status lookups may answer differently at every call. It needs an
injective canonical encoding and a collision-free revision. Two exact conditions go with it:

- A delta can be applied if and only if every item it leaves to the consumer was shown to
  it (`MyTasksRun.DeltaAppliesIff`); with lookups that stay fixed that always holds
  (`MyTasksRun.FixedRunAgrees`).
- The consumer then holds exactly what a cold answer would have given if and only if no
  item it holds carries a description (`MyTasksRun.ExactlyColdIff`,
  `MyTasksRun.DeltaExactlyColdIff`).

## Where the code differs from its documentation

- `docs/my-tasks-snapshots.md` lines 3 and 53-55 promise complete descriptions and a
  rebuilt snapshot equal to the cold JSON. The code's cold answers carry no descriptions
  and list only the active cards, while the changed items of a delta arrive whole. So the
  equality fails on every changed card with a description
  (`MyTasksLimits.DescribedCardIsNotCold`), and on no other (`MyTasksRun.RebuiltColdIff`).
- The view a delta is built for follows the lookups of the call, not those behind the list
  the consumer holds. Lookups that fail in between leave a hidden card to a consumer that
  never had it (`MyTasksLimits.FailingLookupLosesCard`). An "unchanged" answer keeps the
  list of the earlier lookups (`MyTasksLimits.UnchangedIsStale`), which is the fresh one if
  and only if both lookups select the same (`MyTasksRun.StaleLookupsIff`).
- `threadDocComments` says that nothing is dropped. With distinct ids that is so if and
  only if parents do not go round (`DocForest.AllShownIffAcyclic`, `DocForest.CycleIsLost`).
  Comments that share an id share a node with the content of the last of them
  (`DocForest.SharedShowsLast`, `DocForest.DuplicateLosesText`).

## What holds under a condition only

- The limiter reads the clock before it takes its lock, so a charge can come late: it then
  replaces the bucket of a later minute and clears its count. One late charge lets three
  rejections through a budget of one with two requests in flight
  (`AuthCharging.LateChargeBreaksBound`). A charge keeps the counts of all later minutes if
  and only if it does not go behind its bucket (`RateLimit.ChargeKeepsLaterIff`). In every
  run in which no charge of an address does, nor goes behind what idle eviction has cleared,
  the budget bounds both kinds of requests (`AuthCharging.ChargingBound`,
  `AuthCharging.AdmissionBound`); checks may come late.
- Background eviction is invisible to a lookup, whatever the caches hold, if and only if
  the lookup has not read the clock before an eviction that got the lock first
  (`SessionCache.EvictionHiddenIff`, `AuthEviction.LateLookupAsksAgain`); for a limiter
  bucket, if and only if its minute is not one that has been cleared
  (`RateLimit.EvictionHiddenIff`). Under these conditions it leaves no trace in any
  interleaving (`AuthEviction.EvictionLeavesNoTrace`).
- A comment UUID and that comment's own timestamp are interchangeable cursors exactly
  when no newer comment shares the timestamp (`CommentsAfter.UuidAgreesWithItsTime`).
- The backoff of `retryDelayFor` is exponential at every attempt for all bases up to 2^32 ns
  and for no larger bound (`Retry429.BackoffExactIff`); the program's own 500 ms meets it
  (`Retry429.DefaultBackoff`).

## Model

| member | source | states |
|---|---|---|
| ActiveTasks.StatusMemo.Lookup | internal/mcp/my_tasks_snapshot.go:281-351 | At most one listing per project and request; every answer agrees with one table, failures included |
| ActiveTasks.ActiveOnlyMyTasks | internal/mcp/my_tasks_snapshot.go:307-389 | Through the memo, the selection equals the pure selection over any table that agrees with what was looked up; the first failing card's error wins |
| ActiveTasks.FirstErrorWins | internal/mcp/my_tasks_snapshot.go:318-355 | An error at one card is the answer for the whole page, whatever follows |
| ActiveTasks.Mark | internal/mcp/my_tasks_snapshot.go:356-378 | After the stable sort of the todo cards, exactly the kept cards are marked |
| ActiveTasks.SortTodo | internal/mcp/my_tasks_snapshot.go:366-378 | The first five of the stable sort by priority are exactly the todo cards that fewer than five others outrank |
| ActiveTasks.KeptIsTopFive | internal/mcp/my_tasks_snapshot.go:366-378 | A todo card is kept if and only if its sorted position is below five |
| ActiveTasks.KeptTodoCount | internal/mcp/my_tasks_snapshot.go:366-378 | Exactly min(5, number of todo cards) todo cards are kept |
| ActiveTasks.OmittedNeverBeatsKept | internal/mcp/my_tasks_snapshot.go:305-378 | No omitted todo card beats a kept one on priority rank, then position |
| ActiveTasks.KeptIndicesExact | internal/mcp/my_tasks_snapshot.go:379-388 | The kept list is an in-order subsequence holding exactly the kept cards |
| ActiveTasks.CategoryConserved | internal/mcp/my_tasks_snapshot.go:379-388 | Per category, kept cards plus the omitted count equal the input |
| ActiveTasks.PageConserved | internal/mcp/my_tasks_snapshot.go:379-388 | Kept cards plus all omitted counts equal the page |
| MyTasksPlain.SelectionMeans | internal/mcp/my_tasks_snapshot.go:305-389 | On the texts of the cards: every "in_progress" and "review" card, the first five "todo" cards by "urgent", "high", "medium", "low", others and then position, no other card, in page order, and exact counts of the rest |
| MyTasksPlain.SelectionFailsIff | internal/mcp/my_tasks_snapshot.go:318-355 | It fails if and only if some card has no category: no object, no project or status, a failing lookup or an unknown status |
| MyTasksPlain.RankMeans | internal/mcp/my_tasks_snapshot.go:305 | The priority order on its literal texts |
| SnapshotCache.MyTasksSnapshots.MakeRoom | internal/mcp/my_tasks_snapshot.go:93-102 | The eviction loop ends; the victims are the oldest by expiry and no more than needed |
| SnapshotCache.MyTasksSnapshots.Exchange | internal/mcp/my_tasks_snapshot.go:61-106 | Drops what expired, answers the scoped unexpired base that hashes to the known revision, stores the body; the byte counter stays the exact sum of body lengths |
| SnapshotCache.StoredWithinBounds | internal/mcp/my_tasks_snapshot.go:81-104 | At most 128 entries and 32 MiB after every exchange |
| SnapshotCache.EvictOldest | internal/mcp/my_tasks_snapshot.go:93-102 | One eviction keeps oldest-first order and the minimality of the victims |
| SnapshotCache.EveryEntryWasStored | internal/mcp/my_tasks_snapshot.go:61-106 | Over every run, each entry is one that an earlier call stored |
| SnapshotCache.RunSafe | internal/mcp/my_tasks_snapshot.go:61-106 | Over every run, bounds hold, and a returned base was stored by an earlier call under the same scope and the known revision, is unexpired and hashes to it |
| SnapshotCache.NoNeedlessEviction | internal/mcp/my_tasks_snapshot.go:93-102 | With room for the body nothing is evicted |
| SnapshotCache.KeptUnlessDue | internal/mcp/my_tasks_snapshot.go:61-106 | An entry lives 30 minutes; one that goes has expired, is replaced, or gives way to a body of at most 32 MiB with 128 entries or too many bytes beside it |
| SnapshotCache.KnownIsAnswered | internal/mcp/my_tasks_snapshot.go:61-92 | The known revision is answered exactly if its entry is alive, of this scope and hashes to it |
| SnapshotDelta.MyTasksDelta | internal/mcp/my_tasks_snapshot.go:461-529 | The built delta is the specified one for the filtered views of both snapshots; none for a base that cannot be decoded |
| SnapshotDelta.ChangedExact | internal/mcp/my_tasks_snapshot.go:496-511 | An item is sent if and only if it is new or differs from the old item of its id |
| SnapshotDelta.RemovedExact | internal/mcp/my_tasks_snapshot.go:512-517 | An id is removed if and only if it is an old id and not a new one |
| SnapshotDelta.ChangedKeepsOrder | internal/mcp/my_tasks_snapshot.go:496-511 | Changed items are a subsequence of the new list |
| SnapshotDelta.RemovedKeepsOrder | internal/mcp/my_tasks_snapshot.go:512-517 | Removed ids are in old order |
| SnapshotDelta.ViewWellFormed | internal/mcp/my_tasks_snapshot.go:428-440 | The active-only projection keeps ids unique and non-empty, on both sides of the delta |
| SnapshotDelta.UpdatedItem | docs/my-tasks-snapshots.md:49-52 | What the consumer has for each item of the new list: as sent if the old list lacked it, its own copy if it was shown it, nothing otherwise |
| SnapshotDelta.RebuildExact | docs/my-tasks-snapshots.md:49-59 | A delta can be applied if and only if each item it leaves out was shown before; the rebuilt list then copies the new one, order included |
| SnapshotDelta.RebuildRoundTrip | docs/my-tasks-snapshots.md:49-55 | From a copy of the old list, items with or without descriptions, every delta rebuilds a copy of the new one |
| SnapshotDelta.DeltaRoundTrip | internal/mcp/my_tasks_snapshot.go:461-529 | For all old and new lists with unique non-empty ids, the rebuilt list is the new list exactly |
| MyTasksRender.ValidateMyTasksSnapshot | internal/mcp/my_tasks_snapshot.go:108-141 | Accepts exactly the complete pages, and calls them versioned exactly if every item has a whole version of at least 1 |
| MyTasksRender.SlimMyTasksItems | internal/mcp/my_tasks_snapshot.go:173-225 | In place, every item becomes its slim form and the shared url prefix is found if and only if all urls hoist |
| MyTasksRender.SlimIsLossless | internal/mcp/my_tasks_snapshot.go:173-225 | Corollary of SlimMyTasksItems: the template gives every url back, and only empty fields were dropped |
| MyTasksRender.CompactMyTasksCold | internal/mcp/my_tasks_snapshot.go:227-275 | The cold view: descriptions dropped and flagged, active cards and omitted counts, or everything and the reason when lookups fail |
| MyTasksRender.RenderMyTasks | internal/mcp/my_tasks_snapshot.go:395-459 | The answer and the new cache state in every case: full, incomplete, unversioned, unscoped, unchanged, delta, cold |
| MyTasksRender.SnapshotKeepsIds | internal/mcp/my_tasks_snapshot.go:395-425 | Lean and slim rendering keeps ids unique and non-empty and the task order |
| MyTasksPlain.SnapshotField | internal/mcp/tools.go:2145-2219 | Every card of a snapshot keeps a field with its value if and only if it is not one of the twelve names always dropped, not a listed field that is null, "", 0, false, [] or {}, and not a url that moves to the template |
| MyTasksPlain.SnapshotEnvelope | internal/mcp/my_tasks_snapshot.go:395-410 | The other fields of the page are the upstream ones, and the url template is there if and only if every card's url is the prefix and its id |
| MyTasksPlain.ColdField | internal/mcp/my_tasks_snapshot.go:227-256 | A cold card loses its description, says so if and only if it had one, and keeps every other field |
| MyTasksPlain.ColdEnvelope | internal/mcp/my_tasks_snapshot.go:257-275 | The fields of a cold envelope in each case: filtered, lookups failed, active cards with their count and what is omitted |
| MyTasksPlain.CompleteMeans | internal/mcp/my_tasks_snapshot.go:108-141 | Which pages are accepted, field by field: not truncated, objects with distinct nonempty ids, no description cut or announced and missing |
| MyTasksPlain.NoTasksRefused | internal/mcp/my_tasks_snapshot.go:108-141 | A page without a task array is refused |
| MyTasksPlain.VersionedMeans | internal/mcp/my_tasks_snapshot.go:108-141 | A page is versioned if and only if every version is a whole number from 1 to 2^63 - 1 |
| MyTasksPlain.AnswerKinds | internal/mcp/my_tasks_snapshot.go:395-459 | When each kind of answer is given, and which revisions it names |
| MyTasksPlain.ColdRevision | internal/mcp/my_tasks_snapshot.go:395-459 | A cold answer names its snapshot's revision exactly for a versioned page in a known scope |
| MyTasksRun.BaseIsRetained | internal/mcp/my_tasks_snapshot.go:61-106 | Whatever the cache holds, a base it returns is the snapshot the consumer retains |
| MyTasksRun.DeltaShows | internal/mcp/my_tasks_snapshot.go:428-459 | Under lookups of then and now, a delta applies exactly when no item it leaves out was hidden, and then shows the new snapshot, envelope included |
| MyTasksRun.DeltaAppliesIff | internal/mcp/my_tasks_snapshot.go:428-459 | The same for every answered call, in terms of what both lookups show of both snapshots |
| MyTasksRun.CallAgrees | internal/mcp/my_tasks_snapshot.go:395-459 | One call: cold and applied deltas show its snapshot, "unchanged" keeps a list that shows it under the earlier lookups, an unusable delta leaves nothing |
| MyTasksRun.LiveBaseAnswer | docs/my-tasks-snapshots.md:26-35 | With a live base an unaltered page is answered "unchanged", an altered one with a delta if asked for |
| MyTasksRun.RunAgrees | internal/mcp/my_tasks_snapshot.go:395-459 | Over any run of calls in one scope, with any page, cache and lookups at each call, every answer agrees in that sense |
| MyTasksRun.FixedRunAgrees | internal/mcp/my_tasks_snapshot.go:395-459 | With fixed lookups every answered call shows its own snapshot, deltas always applied |
| MyTasksRun.StaleColdIff | internal/mcp/my_tasks_snapshot.go:424-426 | After "unchanged" under other lookups the list is the fresh one if and only if both lookups give one cold answer |
| MyTasksRun.ColdTellsSelection | internal/mcp/my_tasks_snapshot.go:257-275 | Unfiltered cold answers are equal if and only if the same cards, counts or failure were selected |
| MyTasksRun.StaleLookupsIff | internal/mcp/my_tasks_snapshot.go:424-426 | So the list kept on "unchanged" is the fresh one if and only if the page is filtered by the caller or both lookups select the same |
| MyTasksRun.ExactlyColdIff | docs/my-tasks-snapshots.md:53-55 | A consumer showing the snapshot equals one answered cold in its place if and only if none of its items carries a description |
| MyTasksRun.RebuiltColdIff | docs/my-tasks-snapshots.md:53-55 | Rebuilding from a cold list gives the next cold list if and only if no changed item carries a description |
| MyTasksRun.DeltaExactlyColdIff | docs/my-tasks-snapshots.md:53-55 | The same through the answer and the consumer, envelope and revision included |
| MyTasksLimits.TwoCalls | internal/mcp/my_tasks_snapshot.go:395-459 | The two calls of the next two rows can be made, with literal versioned cards |
| MyTasksLimits.FailingLookupLosesCard | internal/mcp/my_tasks_snapshot.go:428-440 | Lookups that start failing between two calls: the server answers with a delta the consumer cannot apply |
| MyTasksLimits.DescribedCardIsNotCold | docs/my-tasks-snapshots.md:53-55 | A card that gains a description: the applied delta leaves a consumer that differs from one answered cold |
| MyTasksLimits.SameCallTwice | internal/mcp/my_tasks_snapshot.go:424-426 | The two calls of the next row can be made, with literal versioned cards |
| MyTasksLimits.UnchangedIsStale | internal/mcp/my_tasks_snapshot.go:424-426 | Lookups that fail by the second call on an unaltered page: "unchanged", and a list that is not the one they give |
| Retry429.RetryAfterFits | internal/mcp/retry429.go:95-122 | Clamped seconds never overflow a 64-bit duration, and are exact up to ten years |
| Retry429.HeaderMeans | internal/mcp/retry429.go:95-122 | What a header asks for, on its seconds or its date: nothing if it is malformed or negative; no wait after a date gone by |
| Retry429.BackoffExact | internal/mcp/retry429.go:128-140 | The wrapping shift gives min(8 s, base * 2^(attempt-1)) for every base up to 2^32 ns and every attempt |
| Retry429.LateAttemptExact | internal/mcp/retry429.go:128-140 | From attempt 34 on it does so for every base |
| Retry429.NextBaseWraps | internal/mcp/retry429.go:128-140 | Base 2^32 + 1 ns waits 2^32 ns at attempt 33 instead of 8 s |
| Retry429.BackoffExactIff | internal/mcp/retry429.go:128-140 | All bases up to a bound are exact at every attempt if and only if the bound is at most 2^32 ns |
| Retry429.DefaultBackoff | internal/mcp/retry429.go:33-65 | The program's base meets it: 500 ms doubling to 8 s at attempt 5 |
| Retry429.TakeTurn | internal/mcp/retry429.go:150-202 | One turn of the loop ends or retries exactly when the run relation says so, gives back any slot it took, and is a path of the call's steps among others |
| Retry429.Do429 | internal/mcp/retry429.go:142-203 | Terminates; every execution is a run and a path of slot steps to the end; at most maxAttempts requests, one for anything but GET and HEAD; none after the first past the budget; Retry-After honoured; exact sleeps end in the budget |
| Retry429.SendsBounded | internal/mcp/retry429.go:142-203 | Part of what Do429 promises, for every run: at most maxAttempts requests |
| Retry429.NoSendPastBudget | internal/mcp/retry429.go:192-201 | Part of it: no request after the first begins once the budget is spent |
| Retry429.SleepsEndInBudget | internal/mcp/retry429.go:162-195 | Part of it: with exact sleeps, every sleep ends by start plus budget |
| Retry429.RetryAfterHonoured | internal/mcp/retry429.go:95-170 | Part of it, on status and header: a retried answer has status 429; after a date the next request goes out at the date or later, after seconds no earlier than these (section 10.2.3 of RFC 9110), despite jitter and capping |
| Retry429.RetriedWithoutDelay | internal/mcp/retry429.go:95-170 | A Retry-After is exceeded by no more than a quarter, the wait for a slot and oversleep; after a date gone by the last two only |
| Retry429.GivesUpOnlyIfDue | internal/mcp/retry429.go:150-170 | An untouched answer is no 429, the last attempt, or asks for more than the budget has left |
| Retry429.OthersAreNotRetried | internal/mcp/retry429.go:150-160 | An answer of any other status, or none, ends the run and is returned as it came |
| Retry429.FallbackBacksOff | internal/mcp/retry429.go:128-170 | Without a valid header the pause before retry i is at least min(8 s, base * 2^(i-1)), and at most a quarter more beside slot wait and oversleep |
| Retry429.LatestResponseReturned | internal/mcp/retry429.go:153-202 | The answer handed over is the latest one, headers intact; only a buffered 429 loses body, and only past 64 KiB |
| RetrySlots.StepKeepsInv | internal/mcp/retry429.go:175-231 | Each step keeps slots equal to the calls between acquire and release, at most four |
| RetrySlots.EveryRunKeepsSlots | internal/mcp/retry429.go:175-231 | The same in every interleaving of any number of calls |
| RetrySlots.LocalStepsAreSteps | internal/mcp/retry429.go:144-231 | Among any other calls, a call can take exactly its own local steps, an acquire when a slot is free |
| RetrySlots.ExitHoldsNothing | internal/mcp/retry429.go:175-203 | Whichever step ends a call, it then holds no slot and the slots in use are those of the others |
| RetrySlots.AllDoneFreesAll | internal/mcp/retry429.go:175-231 | Once all calls have returned, every slot is back |
| RetrySlots.ReleaseNeverBlocks | internal/mcp/retry429.go:222-231 | The channel receive of a release always goes through |
| RetrySlots.WaitingIsJustified | internal/mcp/retry429.go:175-229 | A call waits only while four others hold slots and can move on by themselves |
| RetrySlots.SendsBounded | internal/mcp/retry429.go:144-203 | In every interleaving each call sends at most maxAttempts requests |
| RateLimit.IpRateLimiter.Allow | ratelimit.go:59-77 | Charges the current window and says whether the count was below the budget |
| RateLimit.IpRateLimiter.Over | ratelimit.go:79-92 | Consults the same budget without charging |
| RateLimit.IpRateLimiter.EvictIdle | ratelimit.go:94-107 | Removes exactly the buckets more than two windows old |
| RateLimit.CountingMeans | ratelimit.go:59-77 | Windows are minutes, a charge adds one to its own and starts it anew if the bucket was elsewhere; other addresses are left alone |
| RateLimit.ChargeKeepsLaterIff | ratelimit.go:62-77 | A charge keeps the counts of all later windows if and only if it does not go behind a bucket that counts in one |
| RateLimit.EvictionHiddenIff | ratelimit.go:94-107 | An eviction changes a window's count in no limiter if and only if the window is not behind its horizon |
| RateLimit.DoKeepsAgreement | ratelimit.go:62-107 | Limiters that differ only in cleared windows stay so, and answer alike, under every operation of a window that is not cleared |
| RateLimit.EvictionInvisible | ratelimit.go:62-107 | Operations in any order of their clocks, none in a cleared window: eviction changes no answer |
| SessionCache.AgentSessionCache.GetOrAuthenticate | main.go:860-924 | Which cache answers, when the API is asked, and what is recorded for how long: a 4xx other than 408 and 429 as a failure, an acceptance as a session, everything else not at all |
| SessionCache.RejectionMeans | main.go:89-98 | A rejection is a 4xx other than 408 and 429; everything else but an acceptance is passing trouble |
| SessionCache.LifetimesMean | main.go:790-817 | Sessions live 15 minutes, those of mot_ tokens at most 60 seconds, failures 30 seconds, unless set otherwise |
| SessionCache.RecordedIsServed | main.go:860-924 | What is recorded is served for exactly its lifetime, and only to its key |
| SessionCache.AgentSessionCache.EvictExpired | main.go:819-837 | Removes exactly the entries past their expiry |
| SessionCache.EvictionHiddenIff | main.go:819-924 | An eviction is hidden from a lookup, whatever the caches hold, if and only if the lookup has not read the clock before it |
| SessionCache.DoKeepsAgreement | main.go:819-924 | Caches that no timely reader can tell apart stay so, and answer alike, under every lookup, peek, store and eviction |
| SessionCache.EvictionInvisible | main.go:819-924 | With lookups and stores as separate operations in any order, none timed before an eviction ahead of it: no answer and no need to ask the API changes |
| AuthGate.CheckAuthRateLimit | ratelimit.go:135-150 | The limiter's verdict and charge; a missing limiter, like one without a budget, lets everything through |
| AuthGate.RequireCredential | main.go:529-590 | Every reply, cache state and charge of one request: agent keys are charged before the attempt, OAuth tokens only on rejection |
| AuthGate.SpentMeans | ratelimit.go:79-92 | A budget is spent exactly when as many attempts as it allows are counted in the minute of the clock |
| AuthGate.StepKeepsTrust | main.go:860-924 | Every step keeps each cached entry backed by an API verdict |
| AuthGate.EveryRunTrusts | main.go:529-924 | Over every interleaving and however late a lock is taken after reading the clock, whatever a request is told is justified by what the API said |
| AuthGate.TrustBound | main.go:790-924 | A session served from the cache was accepted within its TTL, a remembered failure is an API error from 400 to 499 other than 408 and 429 within the failure TTL, both plus the recording lag and the lookup's stall |
| AuthGate.OAuthTtlIsSmaller | main.go:790-817 | Corollary for TrustBound: an OAuth entry lives the smaller of the OAuth and the session TTL |
| AuthGate.PassingTroubleChangesNothing | main.go:891-924 | For every step: 408, 429, codes outside 400 to 499, no answer and bad agent data change no cache; only acceptances, rejections and evictions do |
| AuthGate.PassingTroubleIsUnavailable | main.go:572-590 | A request it answers leaves caches as they were; an OAuth one is told Unavailable and charged nothing |
| AuthGate.TroubleInFlight | main.go:572-924 | The same for a request in flight in any interleaving |
| AuthGate.AnswerMeans | main.go:572-590 | Which reply each outcome gets, by its code |
| AuthGate.EveryReplyHasReason | main.go:545-590 | In every run each reply sent is the one for what its request was told |
| AuthGate.ForwardedIsAccepted | main.go:545-590 | In every run a request is forwarded only with a session the API accepted for its very key |
| AuthGate.HandledIsPath | main.go:545-590 | Whatever requireCredential does with one request is a path of the interleaved steps |
| AuthCharging.FrontIsCounted | ratelimit.go:62-92 | At or ahead of an address's bucket, the limiter counts at least what has been charged |
| AuthCharging.ChargeIsBooked | ratelimit.go:62-77 | A charge that does not come late keeps that so |
| AuthCharging.EvictionIsBooked | ratelimit.go:94-107 | So does idle eviction |
| AuthCharging.EntryKeepsBound | main.go:556-568 | Letting an OAuth request in, even on a late check, keeps charged plus let-in rejections bounded |
| AuthCharging.AdmissionKeepsBound | main.go:569-571 | Letting an agent-key request past keeps both bounds |
| AuthCharging.RespondKeepsBound | main.go:572-587 | Charging a rejection keeps them bounded |
| AuthCharging.ChargingBound | main.go:556-584 | In every run without late charges of the address, with at most k of its requests in flight: rejections both let in and charged in one minute number at most rpm + k - 1; rpm when k = 1 |
| AuthCharging.AdmissionBound | main.go:569-571 | In every such run, agent-key requests of the address let past in one minute number at most rpm, however many are in flight |
| AuthCharging.LateChargeBreaksBound | ratelimit.go:62-77 | A run with budget one and two requests in flight in which a late charge lets three rejections through |
| AuthCharging.OnlyRejectionsCharge | main.go:572-590 | Corollary of the steps: no OAuth step changes a bucket, except answering a rejection |
| AuthEviction.StepStaysAlike | main.go:556-924 | Gates that no timely step can tell apart can take the same timely steps |
| AuthEviction.EvictionLeavesNoTrace | main.go:819-837 | In every run of timely steps, API calls in flight included, the run without evictions tells, asks and charges the same |
| AuthEviction.LateLookupAsksAgain | main.go:860-880 | A lookup that read the clock while its session was alive asks the API if an eviction that read it later got the lock first |
| DeferredAuth.StepKeepsInv | internal/mcp/client_info.go:96-118 | Each step keeps mutual exclusion and the session set at most once |
| DeferredAuth.EveryRun | internal/mcp/client_info.go:96-118 | In every interleaving at most one authentication succeeds, a stored session never changes, and no handler runs before it |
| DeferredAuth.OwnOutcome | internal/mcp/client_info.go:96-118 | In every interleaving a call is refused only after its own rejection, and one that authenticated goes on to its handler |
| DeferredAuth.UnlockFrees | internal/mcp/client_info.go:103-115 | A failed attempt leaves the lock free for any waiting call |
| DeferredAuth.HolderCanMove | internal/mcp/client_info.go:103-115 | The lock holder can always move on |
| DeferredAuth.FastPath | internal/mcp/client_info.go:99-102 | With a session stored, the only step of a new call is into its handler |
| DeferredAuth.LateCallsSkipLock | internal/mcp/client_info.go:99-118 | In every run, a call that arrives after a session is stored never waits for or takes the lock |
| RecallRerank.KeyMatchBoost | internal/mcp/tools.go:3314-3346 | The loops compute the boost of the specification: exact match, one containing the other, or at least three distinct shared tokens of four bytes or more |
| RecallRerank.KeyBoostMeans | internal/mcp/tools.go:3314-3346 | 3 for the query itself, 2 if one text is within the other, 1 for three or more distinct tokens of four bytes within the query, else 0; tokens are whole stretches between hyphens and underscores |
| RecallRerank.TokensMean | internal/mcp/tools.go:3336 | The splitting finds exactly those stretches |
| RecallRerank.SizeMeans | internal/mcp/tools.go:3337 | The length in bytes of a text |
| RecallRerank.ExactFirst | internal/mcp/tools.go:3314-3346 | An exact key outranks every other, a containing one every key that only shares tokens |
| RecallRerank.BoostMeans | internal/mcp/tools.go:3162-3190 | The key boost, and one each for the caller's project and scope |
| RecallRerank.BandUnboostedByImportance | internal/mcp/tools.go:3214-3312 | In place, the tail becomes its importance-sorted score bands |
| RecallRerank.RerankRecallItems | internal/mcp/tools.go:3145-3212 | In place, the page becomes the boosted tiers, then the banded tail |
| RecallRerank.RerankPermutes | internal/mcp/tools.go:3145-3312 | The result is a permutation |
| RecallRerank.RerankSafe | internal/mcp/tools.go:3162-3312 | Boosts never increase; in the tail an item precedes a higher-scored one only within the epsilon and only if more important; unscored items come last |
| RecallRerank.TailOrder | internal/mcp/tools.go:3162-3312 | On the fields: in the tail a row precedes one that scored higher only within 0.001 and with more importance, a missing one counting 0; unscored rows close it |
| RecallRerank.TailPutsImportantFirst | internal/mcp/tools.go:3214-3312 | In the tail a more important item stays behind only if a band head outscores it by more than the epsilon |
| RecallRerank.TailLead | internal/mcp/tools.go:3214-3312 | On the fields: a more important row stays behind only if some row scores within 0.001 of the other but further from it |
| RecallRerank.BoostTierKeepsOrder | internal/mcp/tools.go:3190-3212 | Equal non-zero boosts keep input order |
| RecallRerank.TailTiesKeepOrder | internal/mcp/tools.go:3214-3312 | Unscored items, and items tied in score and importance, keep input order |
| RecallRerank.EqualImportanceInBand | internal/mcp/tools.go:3214-3312 | Equal importance inside a band keeps score order |
| GraphMerge.ReserveLeavesRoom | internal/mcp/tools.go:3436-3457 | Used by MergeGraphResults: a quarter of the page rounded down, at least one slot from two on, never the whole page |
| GraphMerge.PickedIsNew | internal/mcp/tools.go:3481-3506 | Neighbours taken have ids distinct from each other and from the page's |
| GraphMerge.PickedFromGraph | internal/mcp/tools.go:3481-3506 | Only offered neighbours are taken, and with room left none is passed by |
| GraphMerge.MergeRespectsPage | internal/mcp/tools.go:3459-3534 | At most limit rows: a base prefix, then the neighbours; the base unchanged when no neighbour is eligible |
| GraphMerge.MergeMeans | internal/mcp/tools.go:3436-3534 | On the rows: the base rows there is room for, then exactly the first neighbours with new ids, marked, up to a quarter of the page or one in two to seven slots |
| GraphMerge.MergeGraphResults | internal/mcp/tools.go:3459-3534 | The merged page, and which part of the base page's own backing array is overwritten |
| ListTasksPage.CapListTasksPage | internal/mcp/list_tasks.go:211-257 | The page is cut to the largest affordable divisor of its start offset, with the next limit and page, or left alone |
| ListTasksPage.CountFit | internal/mcp/list_tasks.go:216-230 | The longest prefix within the budget, at least one row |
| ListTasksPage.LargestDivisor | internal/mcp/list_tasks.go:246-250 | The largest count up to the fit that divides the start offset |
| ListTasksPage.CutContinues | internal/mcp/list_tasks.go:246-253 | The advertised limit and page begin exactly at the first dropped row |
| ListTasksPage.WalkDeliversEveryRowOnce | internal/mcp/list_tasks.go:204-257 | Following next when truncated and page + 1 otherwise ends within rows + 1 pages and delivers every row once, in order |
| ListTasksPage.WalkAll | internal/mcp/list_tasks.go:204-257 | Such a walk always finishes, from any limit, with exactly the server's list |
| ListTasksPage.TruncatedPageFits | internal/mcp/list_tasks.go:198-230 | A page cut to two or more rows, laid end to end with a separator each, is within 2500 bytes |
| ListTasksPage.UsedIsLaidOut | internal/mcp/list_tasks.go:216-230 | The size charged is that of the rows laid end to end, one separator each |
| ListTasksPage.CutMeans | internal/mcp/list_tasks.go:204-257 | In bytes: a page is shown whole exactly if it has one row, fits, or starts at an unknown offset; otherwise more rows are too long or do not divide the start |
| CommentsAfter.CommentsAfter | internal/mcp/compact_read.go:69-162 | For arbitrary answers of the API: which error comes first, or the asked page with its counts |
| CommentsAfter.Walk | internal/mcp/compact_read.go:92-161 | The page loop collects what the specification collects, or fails as it does |
| CommentsAfter.ReverseItems | internal/mcp/compact_read.go:143-147 | The two-index loop reverses in place |
| CommentsAfter.StartOf | internal/mcp/compact_read.go:148-152 | The start of the page, with every intermediate value in 64 bits, however large the page number |
| CommentsAfter.WalkBounded | internal/mcp/compact_read.go:92-161 | What a walk collects can be counted in 64 bits |
| CommentsAfter.WalkOfThread | internal/mcp/compact_read.go:92-161 | Against a fixed thread the walk finds the newer comments of the whole thread, not of one page |
| CommentsAfter.AnswersForThread | internal/mcp/compact_read.go:65-162 | On up to 200000 comments an unknown UUID is an error and everything else is the right slice; beyond, it fails exactly when the cursor was not met |
| CommentsAfter.NewerThanUuid | internal/mcp/compact_read.go:119-124 | Newer than a UUID is the prefix before its first occurrence |
| CommentsAfter.NewerThanTime | internal/mcp/compact_read.go:125-133 | Newest first, newer than a time is the prefix of strictly later comments |
| CommentsAfter.UuidAgreesWithItsTime | internal/mcp/compact_read.go:65-135 | Both cursors ask for the same comments if and only if no newer one has the same time |
| CommentsAfter.CallsCollectThread | internal/mcp/compact_read.go:148-158 | Pages 1 to total_pages put together are the newer comments or their reverse; a page is empty exactly beyond the last |
| CommentsAfter.CollectedInOrder | internal/mcp/compact_read.go:143-158 | By position: for "asc" the k-th collected comment is the k-th newer one from the end, for "desc" the k-th |
| CommentsAfter.CollectedByTime | internal/mcp/compact_read.go:143-158 | By creation time: for "asc" what is collected never goes back in time, for "desc" never forward |
| CommentsAfter.DefaultsMean | internal/mcp/compact_read.go:69-91 | Ten comments a page unless asked, at most 200; page 1 unless asked |
| DocThreads.BuildTable | internal/mcp/doc_comments.go:300-312 | One node for each id, the last comment of an id giving its content |
| DocThreads.ThreadDocComments | internal/mcp/doc_comments.go:300-337 | For any input, duplicates included: which comments share a node, each node's replies in input order, the top level and the orphan marks |
| DocForest.ChildrenIncrease | internal/mcp/doc_comments.go:314-334 | Threads and replies keep input order |
| DocForest.ForestHasShape | internal/mcp/doc_comments.go:300-337 | With distinct ids, each comment has a node of its own whose replies are exactly the comments that answer it |
| DocForest.NodeOfComment | internal/mcp/doc_comments.go:321-330 | The orphan mark is present exactly when a named parent is not listed |
| DocForest.LevelCounts | internal/mcp/doc_comments.go:314-334 | A comment occurs at depth k once if its chain of parents has k links, and not otherwise |
| DocForest.ForestShowsRooted | internal/mcp/doc_comments.go:286-337 | Reading the forest meets a comment once if its chain of parents reaches a thread, never otherwise, and nothing else |
| DocForest.RootedShallow | internal/mcp/doc_comments.go:286-337 | No chain of parents is longer than the list, so a reading that deep is whole |
| DocForest.ShownIffRooted | internal/mcp/doc_comments.go:286-337 | With distinct ids, a whole reading meets a comment once if its chain of parents reaches a thread, otherwise never |
| DocForest.AllShownIffAcyclic | internal/mcp/doc_comments.go:286-337 | With distinct ids, every comment is met exactly once if and only if parents never go round |
| DocForest.ForestConservesComments | internal/mcp/doc_comments.go:286-337 | With an acyclic parent relation of any depth there is a reading that meets every comment exactly once, and nothing else |
| DocForest.AllRootedIffAcyclic | internal/mcp/doc_comments.go:286-337 | All chains of parents end in a thread if and only if parents never go round |
| DocForest.CycleIsLost | internal/mcp/doc_comments.go:286-337 | Two comments that answer each other are in no thread |
| DocForest.SharedShowsLast | internal/mcp/doc_comments.go:300-319 | Entries of one id share a node with the last one's content; another's content is kept if and only if it is equal |
| DocForest.DuplicateLosesText | internal/mcp/doc_comments.go:300-319 | Of two threads that share an id, the first one's text is gone |
| DocForest.MetIffReaches | internal/mcp/doc_comments.go:286-337 | For any input: a node is met at depth k if and only if an entry of its id has a chain of k parents that ends in a thread |
| DocForest.ContentMetIff | internal/mcp/doc_comments.go:286-337 | For any input: an entry's content is met if and only if it is the last of its id and an entry of that id has such a chain |
| DocPaths.SlugIsLast | internal/mcp/docs.go:124-133 | A slug is what the last document of its id says |
| DocPaths.ParentIsLast | internal/mcp/docs.go:124-133 | A parent is what the last document of its id that names one says |
| DocPaths.WalkUp | internal/mcp/docs.go:136-150 | The walk terminates for every parent map and its segment-count guard never cuts it short |
| DocPaths.DocumentPaths | internal/mcp/docs.go:121-154 | Every listed id gets the joined segments of its walk |
| DocPaths.TrailIsDistinct | internal/mcp/docs.go:141-150 | No id is visited twice |
| DocPaths.PathIsRecursive | internal/mcp/docs.go:110-154 | A path is the parent's path and the own slug exactly for documents that are not their own ancestors; the own slug alone without a listed parent |
| DocPaths.RankedHasNoCycle | internal/mcp/docs.go:110-154 | On acyclic parent maps every joined path is parent path, slash, own slug |
| DocPaths.CycleStillHasPaths | internal/mcp/docs.go:136-150 | Documents that are each other's parent still get paths |
| DocPaths.PathsIdentifyDocuments | internal/mcp/docs.go:110-113 | Without cycles, with slash-free slugs that differ between siblings, no two documents share a path |
| StableSort.SortKeepsTies | internal/mcp/tools.go:3190-3212 | The sort every ordering relies on is stable |
| StableSort.SortOrders | internal/mcp/tools.go:3190-3212 | ... and ordered, for every strict weak order |

## Left out

- Parsing and encoding: JSON, SHA-256, UUIDs, timestamps, HTTP dates, integers in strings and lower-casing are parameters. The JSON encoding is assumed canonical and injective, the revision collision-free.
- In `Retry429` time passes during a request, a slot wait and a sleep, and computation takes none; in `AuthGate` it may pass between any two steps and between a clock reading and its lock. Times are whole nanoseconds.
- Floating point: scores and importances are exact reals.
- 64-bit wrap of `(pageNo-1)*limit` in `capListTasksPage`, which would need a page of rows beyond row 2^63, and a slice too long for memory in `commentsAfter`.
- `MESH_MCP_MY_TASKS_COLD=full`, the rollback to complete cold answers.
- How the scope of a snapshot is computed; calls share it or not.
- MyTasksRun.RunAgrees: assumes that an unversioned page carries no field named `revision` of its own. Exact equality with a cold answer and lookups that change have their conditions above.
- Retry429.Do429: other calls do not move the semaphore while this one runs; `RetrySlots` has their interleaving, and a wait for a slot ends with one only if one is free.
- AuthGate.TrustBound: a session is trusted for its TTL plus the lag between the API's answer and its recording and the stall between a lookup's clock reading and its lock, which the code does not bound; with both zero it is the TTL.
- AuthCharging.ChargingBound: not for runs with late charges, which AuthCharging.LateChargeBreaksBound shows to break it.
- AuthEviction.EvictionLeavesNoTrace: not for steps that read the clock before an eviction ahead of them, which AuthEviction.LateLookupAsksAgain shows to differ.
- DocForest.ForestConservesComments: needs distinct non-empty ids; with duplicates `DocForest.SharedShowsLast` says what is shown, and a shared node can be met more than once.
- MyTasksRender.SlimMyTasksItems: maps are values, so an item shared with another page is not modelled.
- DocThreads.ThreadDocComments: the fields of a comment other than its id and parent are one text, so that `document_id` is dropped from every node is not modelled.
- GraphMerge.MergeGraphResults: the mark on a neighbour taken is set on a copy, though the code sets it on the row's own map.
- The recall handler, which today only formats the page the server selected and calls neither the reordering nor the merge.
- Metrics, logging and Retry-After texts.
- Texts of errors and notes, other than those a cold view carries.
- `clientLabel`, the SSE wiring, OAuth metadata, tool registration, the REST client and the remaining handlers, which would only add easy members.
