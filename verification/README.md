# A verified model of Broccoli's comparator, plugin pool, hooks, token store, cancellation cache and glob

Broccoli is an online judge. This project models six of its components in Dafny and proves what they
promise. `dafny verify dfyconfig.toml` checks everything.

| module (file) | component |
|---|---|
| `Utf8`, `Texts` | UTF-8 (RFC 3629, sections 3 and 4), `std::str::from_utf8`, `split_whitespace`, `lines`, `trim_end` |
| `Streams`, `CharStreams` | chunked readers, the preview tee, incremental decoding |
| `Exact`, `Floats`, `TokenComparison`, `LineComparison`, `Comparator` | the comparison modes and the program around them |
| `Pool`, `PoolMachine`, `PoolEviction`, `PluginMetrics` | the recycling plugin-instance pool, alone, shared by threads, and through reloads of its plugin |
| `Enablement`, `Submissions`, `Hooks`, `HookProperties`, `HookOutcomes`, `HookRegistry` | which hooks run, what dispatching them may do, and what it comes to |
| `TokenStore`, `TokenRace` (`TokenStore.dfy`) | the shared token store and racing refreshes |
| `Cancellation` | the TTL cache before Redis |
| `Glob` | the backtracking file-name matcher |
| `Options` | `Option` |

How the parts are modelled:

- **Readers.** A `Source` holds bytes and a finite plan of what the coming `read` calls do: hand out some bytes,
  be interrupted, or fail. After the plan it hands out a fixed number at a time. A theorem for all sources is a
  theorem for all chunkings, interruptions and failures. The streams are classes with the program's fields.
  Their specification is `Ahead()`, what a stream has yet to yield. It decodes what the stream shows: all bytes that are
  left or, if these are malformed, the longest part of them that ends with a chunk and is not
  (`CharStreams.ShownIsLongest`). The loose variables of each side of `compare_exact` are grouped in a class `Side`.
- **Library functions.** `char::is_whitespace` is the Unicode White_Space list. `str::to_lowercase`,
  `str::parse::<f64>` and the JSON parser for rejection reasons are parameters, so the theorems hold for any.
  Floats are reals with not-a-number and infinities.
- **The pool.** Each stretch of code under the lock is a function and a method that updates the pool in place.
  `PoolMachine` interleaves any number of threads at the lock boundaries. "Push, then notify after unlocking" and
  "reserve, then build unlocked" are separate steps.
- **Hooks.** A hook is any function from the event, and from what blocking hooks were asked and answered before, to an
  action, an error or a timeout; so it may keep state. The dispatcher is the loop of the source, with its inner loop
  over chained events in a method of its own, and is proved equal to the function `Dispatch`, about which everything
  else is proved: in particular its result and the order and payloads of its calls are read off the recorded calls alone
  (`HookOutcomes`).
- **Tokens and cancellation.** Callers of `refresh_if_current` interleave at every lock operation. Redis is a
  function of time and key, and cache accesses of any number of tasks come in any order.

Where the code does less than its comments say, the model follows the code:

- `evict_idle` is documented to drop every instance idle for the timeout. A return is stamped before the lock is
  taken, so two overlapping returns can leave the free list out of order, and eviction then stops early
  (`PoolEviction.OverlappingReturnsEvictLess`). It drops everything exactly when the list is in order
  (`Pool.EvictionCompleteIffOrdered`), and it is in order when returns do not overlap
  (`PoolEviction.SerialReturnsEvictAll`).
- The metrics call a plugin's pool size created - recycled - evicted. The factory raises "created" whether or not the
  build succeeded (`packages/plugin-core/src/traits.rs:471-484`), and unloading, reloading or replacing a plugin drops
  its pool without subtracting what is in it (`traits.rs:502-518`, `601-623`). So the formula is the pool size exactly
  when the failed factory calls and the instances of dropped pools are as many as the builds under way
  (`PluginMetrics.MetricsThroughReloads`; for the life of one pool `PoolMachine.MetricsFormula`). One failed build, or one
  reload, makes it show an instance in an empty pool (`PoolMachine.FailedBuildIsCounted`,
  `PluginMetrics.ReloadIsNotSubtracted`). The program raises "recycled" and "evicted" a little after the operation
  (`traits.rs:257-268`, `407-413`); the formula is about the counters once they have caught up.
- An answer file that is not UTF-8 is meant to stay an error. A token that differs before the broken byte gives
  WrongAnswer first: the file `61 0A C3` against the output "b", however it is read (`Comparator.BrokenAnswerUnreported`).
  `Comparator.BrokenAnswer` says exactly when the error comes, for all bytes and chunks: when the comparison reaches the
  break. Bytes that merely break off are always decoded up to there (`Comparator.AllTokensBefore`); malformed ones hide
  what came before them in the same chunk, so that a malformed file that comes in one read is always reported against a
  UTF-8 output (`Comparator.ReadAtOnceIsReported`).
- Identical tokens are not always accepted in float mode: `Comparator.FloatAcceptsIdentical` gives the tolerances under
  which they are.
- The glob matcher slices its text at byte offsets and panics inside a multi-byte character: it is safe for every
  pattern on exactly the ASCII texts (`Glob.SafeIffAscii`).
- Sweeps of the cancellation cache are invisible in every run to lookups whose clock was not read before those of the
  accesses so far, and not in general to others (`Cancellation.SweepsAreInvisible`). All clocks are read before the lock
  is taken, so a lookup's clock can be the earlier one.

## Model

| member | source | states |
|---|---|---|
| Utf8.CleanIffUtf8 | packages/broccoli-compare/src/modes.rs:172-176 | decoding succeeds on exactly the encodings of texts and returns the text that was encoded |
| Utf8.DecodeOfEncoding | packages/broccoli-compare/src/modes.rs:172-176 | encoding any text and decoding it, whatever bytes follow, gives the text back and continues after it |
| Utf8.DecodeSplits | packages/broccoli-compare/src/modes.rs:187-201 | any bytes are an encoded text and a rest that is empty, unfinished or malformed, as the decoder says |
| Utf8.DecodeMore | packages/broccoli-compare/src/modes.rs:166-204 | decoding can resume after any prefix: more bytes continue from the undecoded rest, unless it was malformed |
| Utf8.ErrorLenMeansBeyondRepair | packages/broccoli-compare/src/modes.rs:178-184 | `error_len` is set exactly when no further bytes could make the sequence valid |
| Utf8.TruncatedMeansUnfinished | packages/broccoli-compare/src/modes.rs:185-187 | otherwise the rest is a proper prefix of one encoded character, at most three bytes |
| Utf8.ValidPrefix | packages/broccoli-compare/src/modes.rs:187-201 | the prefix up to `valid_up_to` decodes cleanly to the characters before the error |
| Streams.TeeReader.Tee | packages/broccoli-compare/src/main.rs:193-207 | the preview keeps showing exactly the first bytes that went by, up to 64 KiB, or a prefix of them after a write error |
| Streams.TeeReader.Read | packages/broccoli-compare/src/main.rs:232-240 | every byte passes unchanged and in order, zero only at the end, and the preview invariant is kept |
| Streams.TeeReader.DrainToEof | packages/broccoli-compare/src/main.rs:209-221 | without a read error the whole stream goes by and an open preview shows exactly its first 64 KiB |
| Streams.ReadSome | packages/broccoli-compare/src/modes.rs:105-116 | terminates through interruptions; a next piece of the stream, empty only at its end |
| CharStreams.ShownIsLongest | packages/broccoli-compare/src/modes.rs:163-186 | what gets decoded of a stream is the longest part that ends with a chunk and is not malformed |
| CharStreams.OutlookMeans | packages/broccoli-compare/src/modes.rs:163-204 | for every chunking a stream shows a prefix of its valid part, and all of it unless its bytes are malformed |
| CharStreams.ChunkInStream | packages/broccoli-compare/src/modes.rs:172-204 | a malformed chunk hides everything; after any other its characters come first and its undecoded rest is held back |
| CharStreams.CharStream.DecodePending | packages/broccoli-compare/src/modes.rs:172-204 | exactly malformed bytes are an error; otherwise the whole characters move over and at most three bytes of an unfinished one stay |
| CharStreams.CharStream.Fill | packages/broccoli-compare/src/modes.rs:163-204 | a fill makes progress and leaves what is ahead unchanged; `InvalidData` exactly where the stream is malformed and shows no more |
| CharStreams.CharStream.NextChar | packages/broccoli-compare/src/modes.rs:145-161 | yields all characters the stream shows one by one, then ends, cleanly only if the bytes are UTF-8 |
| CharStreams.ReadChars | packages/broccoli-compare/src/modes.rs:126-204 | without a failed read it yields exactly what the stream shows: for every chunking UTF-8 gives exactly its text, anything else `InvalidData` after a prefix of its valid part, all of it if merely truncated |
| Texts.WhitespaceIs | packages/broccoli-compare/src/modes.rs:221-225 | whitespace is the 25 code points of the Unicode property White_Space |
| Texts.TokensUnique | packages/broccoli-compare/src/modes.rs:221-225 | the tokens are the only words that the text is made of with whitespace around and between |
| Texts.NormalLinesArePieces | plugins/standard-checkers/src/util.rs:16-23 | normalized lines are the trimmed pieces between line feeds without trailing empty ones: dropping `\r` and a missing last line feed make no difference |
| Texts.TrimEnd | packages/broccoli-compare/src/modes.rs:375 | what is left is a prefix, what goes is whitespace, and no whitespace is left at the end |
| Texts.NormalLinesIgnore | packages/broccoli-compare/src/modes.rs:361-393 | two texts have equal normalized lines exactly when their pieces between line feeds differ only in whitespace at the ends of pieces, and in blank pieces at the end |
| Texts.PiecesJoin | packages/broccoli-compare/src/modes.rs:395-410 | the pieces hold no line feed and make the text with line feeds between them |
| Texts.FinishedTokens | packages/broccoli-compare/src/modes.rs:239-254 | the tokens of a text that breaks off are those up to its last whitespace |
| Texts.FinishedLines | packages/broccoli-compare/src/modes.rs:395-410 | the lines of a text that breaks off are those up to its last line feed |
| Texts.TokensOfNormalLines | packages/broccoli-compare/src/modes.rs:221-225 | tokens never straddle lines: those of a text are those of its normalized lines in order |
| Exact.Side.Refill | packages/broccoli-compare/src/modes.rs:67-80 | refilling an exhausted window leaves the bytes ahead unchanged and marks the end when nothing comes |
| Exact.MatchWindows | packages/broccoli-compare/src/modes.rs:82-101 | a round decides rightly whether the bytes ahead are equal, or leaves the question open and consumes a byte |
| Exact.CompareExact | packages/broccoli-compare/src/modes.rs:50-103 | terminates and accepts exactly the identical byte sequences, for every pair of chunkings |
| TokenComparison.TokenStream.NextToken | packages/broccoli-compare/src/modes.rs:239-254 | yields the tokens the stream shows one by one; a broken stream yields all that are finished before its break, and then fails |
| TokenComparison.CompareTokens | packages/broccoli-compare/src/modes.rs:281-321 | unless a read fails, for every chunking: for a UTF-8 answer Accepted exactly when the output is UTF-8 and tokens match pairwise, else WrongAnswer; for any other an error exactly when the comparison reaches the break, else WrongAnswer |
| LineComparison.OwedText | packages/broccoli-compare/src/modes.rs:379-384 | moving the count of pending blanks to the flush counter keeps the lines that are owed |
| LineComparison.LineStream.NextRawLine | packages/broccoli-compare/src/modes.rs:395-410 | yields the lines of `str::lines` one by one for every chunking |
| LineComparison.LineStream.NextLine | packages/broccoli-compare/src/modes.rs:361-393 | with at most one line queued and blanks only counted, yields exactly the normalized lines |
| LineComparison.CompareLines | packages/broccoli-compare/src/modes.rs:413-443 | the same for normalized lines: Accepted, WrongAnswer or an error exactly as all that the streams show demands |
| Comparator.Compare | packages/broccoli-compare/src/main.rs:137-166 | unless a read fails, in every mode the result is that of what the streams show; a verdict is the right one for the two byte sequences, `InvalidData` blames the answer, `InvalidInput` the mode |
| Comparator.ModeAccepts | packages/broccoli-compare/src/main.rs:137-166 | for two texts each mode, by its name and tolerances, gives the verdict on lines, tokens, lower-case tokens or close numbers |
| Comparator.ChunksMakeNoDifference | packages/broccoli-compare/src/main.rs:137-166 | the result does not depend on the chunks for a UTF-8 answer, in exact mode, or if both streams at worst break off |
| Comparator.Run | packages/broccoli-compare/src/main.rs:83-134 | the verdict is right and survives drain errors; standard input is read to its end and its first 64 KiB are shown however early the verdict falls |
| Comparator.BrokenAnswer | packages/broccoli-compare/src/modes.rs:296-309 | an answer that is not UTF-8 is reported, for all bytes and chunks, exactly when the tokens it shows before its break match the output's and the output does not break there too or before; otherwise it is called wrong |
| Comparator.BrokenAnswerInLines | packages/broccoli-compare/src/modes.rs:413-443 | in lines mode such an answer is reported exactly when the lines it shows are the first of the output's and the output does not break there too or before |
| Comparator.BrokenAnswerUnreported | packages/broccoli-compare/src/modes.rs:296-309 | a truncated answer that is called wrong instead of reported, under every chunking |
| Comparator.AllTokensBefore | packages/broccoli-compare/src/modes.rs:239-254 | bytes that merely break off, and any read one by one, show every token finished before their break |
| Comparator.ReadAtOnceIsReported | packages/broccoli-compare/src/modes.rs:178-184 | a malformed answer that comes in one read is reported exactly against outputs that are UTF-8 or show a token |
| TokenComparison.FloatMatchMeans | packages/broccoli-compare/src/modes.rs:268-272 | two finite numbers match exactly within the absolute tolerance or within the relative tolerance of either, for all tolerances |
| TokenComparison.FloatMatchInReals | packages/broccoli-compare/src/modes.rs:268-272 | for finite tolerances that is the usual arithmetic on reals |
| TokenComparison.FloatNotFinite | packages/broccoli-compare/src/modes.rs:263-267 | where one of two numbers is not finite they match exactly if both are not-a-number or the same infinity |
| TokenComparison.FloatOnWords | packages/broccoli-compare/src/modes.rs:274-275 | if of any two tokens at one place one is no number, float mode accepts exactly equal tokens |
| TokenComparison.AgreeMeans | packages/broccoli-compare/src/modes.rs:296-321 | comparing token by token decides whether the lists are equal, equal in lower case, or equal up to close numbers |
| TokenComparison.MatchingIsSymmetric | packages/broccoli-compare/src/modes.rs:257-279 | expected and actual token can be exchanged in every mode |
| Comparator.MatchesItself | packages/broccoli-compare/src/modes.rs:257-279 | a token matches itself in every mode, given tolerant tolerances in float mode |
| Comparator.FloatAcceptsIdentical | packages/broccoli-compare/src/modes.rs:257-279 | float mode accepts all identical token sequences exactly if the absolute tolerance is a non-negative number or the relative one finite and non-negative |
| Comparator.ModeHierarchy | packages/broccoli-compare/src/main.rs:139-157 | on UTF-8 inputs exact acceptance implies lines, lines implies tokens, tokens implies case-insensitive and tolerant float |
| Pool.RecyclingPool.TryGet | packages/plugin-core/src/pool.rs:141-173 | a pass takes the last returned instance if there is one, else reserves if there is room, else waits exactly until the deadline, and changes nothing else |
| Pool.RecyclingPool.EvictIdle | packages/plugin-core/src/pool.rs:190-204 | drops exactly the leading slots that have been idle for the timeout when looked at and lowers the count by as many |
| Pool.PoolLease.NoteCall | packages/plugin-core/src/pool.rs:221-254 | counts with saturation; recycles exactly when there is a budget, the calls reach the minimum, the bytes exceed the budget and a replacement was built; then the counters start over, else the instance is kept |
| Pool.EvictionCompleteIffOrdered | packages/plugin-core/src/pool.rs:188-204 | eviction leaves no stale slot, whatever the clock and timeout, exactly when the free list is in order of return |
| PoolMachine.PoolAccounting | packages/plugin-core/src/pool.rs:69-74 | in every run `live` is free + leased + returning + building and within the maximum, no decrement underflows, every instance is in exactly one place, built = free + held + recycled + evicted |
| PoolMachine.MetricsFormula | packages/common/src/metrics.rs:43-46 | in the life of one pool created - recycled - evicted is the pool size less the builds under way plus the factory calls that ever failed; so it is the pool size exactly when these two are equal |
| PoolMachine.FailedBuildIsCounted | packages/plugin-core/src/traits.rs:471-484 | one failed build leaves the formula at one with an empty pool and no build under way |
| PluginMetrics.MetricsThroughReloads | packages/common/src/metrics.rs:43-46 | through any loads, unloads and calls the plugin's created - recycled - evicted is its pool size exactly when all failed factory calls and the instances of dropped pools are as many as the builds under way |
| PluginMetrics.ReloadIsNotSubtracted | packages/plugin-core/src/traits.rs:601-623 | one instance built and the plugin reloaded leaves the formula at one with an empty pool, nothing failed and no build under way |
| PoolMachine.NoLostWakeup | packages/plugin-core/src/pool.rs:138-174 | while someone sleeps unnotified, spare instances and reservations are at most the notifications due or under way |
| PoolMachine.SleeperHasProvider | packages/plugin-core/src/pool.rs:274-282 | a sleeper always has a thread that is leasing, returning, building, notified or about to notify |
| PoolMachine.AntiThrash | packages/plugin-core/src/pool.rs:32-42 | over every run recyclings times the call floor are at most the calls noted, and times budget + 1 at most the bytes noted |
| PoolMachine.MemoryBound | packages/plugin-core/src/pool.rs:32-42 | over every run at most as many instances have met both thresholds as factory calls have failed; while none has failed, no free, leased or returning one has |
| PoolMachine.StepFound | packages/plugin-core/src/pool.rs:138-282 | no step loses or duplicates an instance; only a successful build adds one |
| PoolMachine.StepSignalled | packages/plugin-core/src/pool.rs:138-205 | every step, eviction included, keeps sleepers covered by notifications |
| PoolMachine.SignalsAreReal | packages/plugin-core/src/pool.rs:159-282 | a thread is about to notify only after it returned an instance or gave up a reservation, and is notified only by such a thread |
| PoolMachine.EnterIsRight | packages/plugin-core/src/pool.rs:141-173 | a thread takes the last returned instance, else a reservation, else gives up exactly when its time is over, else sleeps |
| PoolMachine.DeadlineStays | packages/plugin-core/src/pool.rs:138-173 | its time is the one it asked for, however often it sleeps and wakes |
| PoolEviction.EvictDropsOnlyIdle | packages/plugin-core/src/pool.rs:188-204 | eviction drops a prefix of free slots that were all idle long enough and touches no thread |
| PoolEviction.SerialReturnsEvictAll | packages/plugin-core/src/pool.rs:188-204 | in runs whose returns do not overlap eviction leaves no idle instance |
| PoolEviction.OverlappingReturnsEvictLess | packages/plugin-core/src/pool.rs:274-282 | a run with two overlapping returns after which eviction leaves a stale instance |
| Enablement.ExtractPluginId | packages/server/src/host_funcs/config.rs:70-75 | the longest prefix without a colon |
| Enablement.MergeResourceEnablements | packages/server/src/hooks.rs:123-186 | the result holds exactly the plugins switched on at the most specific scope that sets them, each at the least position of its most specific scope |
| Enablement.MergeIsOrderIndependent | packages/server/src/hooks.rs:106-122 | rows in any order and with any repetition merge to the same result |
| Enablement.MostSpecificDecides | packages/server/src/hooks.rs:111-118 | a plugin is on exactly if a row that no other setting row overrides says so, at the least position of the rows that none overrides |
| Enablement.PermutedRowsAgree | packages/server/src/hooks.rs:106-122 | permuted rows merge to the same result |
| Enablement.AddContestTypeOwner | packages/server/src/hooks.rs:193-204 | the owner is added first in order, a configured position is kept, no other plugin changes |
| Submissions.DecodeToValue | packages/broccoli-types/src/types/hook_events.rs:10-19 | a request survives being written to JSON and read back, and starts without admission |
| Submissions.WireFormat | packages/broccoli-types/src/types/hook_events.rs:10-19 | each attribute is written to and read from the field of its own name |
| Submissions.AdmissionIsNoAttribute | packages/server/src/hooks.rs:571-575 | attaching an admission changes no request attribute |
| Hooks.DispatchHooksInner | packages/server/src/hooks.rs:439-660 | the loop with its overwritten payload and recursive calls computes `Dispatch`: result and every hook call in order |
| Hooks.DispatchChained | packages/server/src/hooks.rs:600-616 | the loop over chained events computes `RunChain`: the first event not allowed decides |
| HookProperties.StableSortSorts | packages/server/src/hooks.rs:503-508 | hooks run blocking first, then global, then by position, equal ones in order of registration |
| HookProperties.AcceptKeeps | packages/server/src/hooks.rs:537-577 | an accepted modification keeps the attributes, and the admission unless the owner made it |
| HookProperties.SubmissionIntegrity | packages/server/src/hooks.rs:351-371 | an allowed submission asks for what the request asked for and carries the admission its owner gave it last, whatever any hook does |
| HookProperties.NotifyHooksAreInert | packages/server/src/hooks.rs:619-655 | removing all notify hooks changes neither the result nor any blocking call, at any depth |
| HookProperties.ListWithoutNotify | packages/server/src/hooks.rs:464-508 | sorting after removing notify hooks gives the sorted list without them |
| HookProperties.TotalCallsBounded | packages/server/src/hooks.rs:447-454 | with k hooks a topic and c events a chain, a dispatch makes at most k + ck + cck calls |
| HookProperties.BoundIsTight | packages/server/src/hooks.rs:600-616 | for every k and c there is a registry that meets the bound |
| HookOutcomes.DispatchDecided | packages/server/src/hooks.rs:524-616 | a dispatch, at any depth of chaining, is refused exactly when its last call ends it, with the result that call calls for; no call comes after one that ends it |
| HookOutcomes.RefusalsAreFinal | packages/server/src/hooks.rs:513-599 | a rejection, error or timeout of any blocking hook called is the last call, and the result is that rejection, by its reason, or that error |
| HookOutcomes.DispatchFollows | packages/server/src/hooks.rs:510-616 | the hooks of the dispatch list are called in order until one does not go on, each with the payload the one before left; the allowed payload is the one the last left |
| HookOutcomes.StopIsLast | packages/server/src/hooks.rs:579-586 | a stop is the last call for its event: a submission is allowed as it is, any other event is stopped |
| HookOutcomes.ChainInTurn | packages/server/src/hooks.rs:600-616 | chained events are dispatched in turn; the first that is not allowed decides, otherwise the event that chained them is allowed as it was |
| HookOutcomes.DispatchListIsRight | packages/server/src/hooks.rs:464-508 | the list holds exactly the global hooks and those of enabled plugins, as often as registered, blocking, then global, then by position, then in order of registration |
| HookRegistry.ServerHookRegistry.Register | packages/server/src/hooks.rs:48-65 | each topic's list grows by the hook, once for each time it is listed |
| HookRegistry.ServerHookRegistry.UnregisterPlugin | packages/server/src/hooks.rs:67-71 | exactly the plugin's entries leave every list |
| HookRegistry.UnregisterUndoesRegister | packages/server/src/hooks.rs:48-71 | unregistering a plugin undoes any registration of it |
| HookRegistry.CallsSourced | packages/server/src/hooks.rs:473-498 | every call of a dispatch, chained or not, is of a registered hook that is global or whose plugin is enabled |
| HookRegistry.UnregisteredNeverCalled | packages/server/src/hooks.rs:67-71 | after unregistering a plugin no dispatch calls it |
| TokenStore.Store.Update | packages/cli-core/src/tokenstore.rs:58-65 | both tokens are replaced and persisted once |
| TokenStore.Store.RefreshIfCurrent | packages/cli-core/src/tokenstore.rs:75-93 | exchanges exactly if the token is current and can be refreshed; otherwise nothing changes, and the ending says why; the decision is the one the racing callers make |
| TokenRace.SingleFlight | packages/cli-core/src/tokenstore.rs:67-93 | under any interleaving successful exchanges start from different tokens, each presents what the one before obtained, and the hook ran once for each as stored |
| TokenRace.RotatedOncePersisted | packages/cli-core/src/tokenstore.rs:58-93 | in every run exactly as many callers end with a rotation as tokens were persisted |
| TokenRace.AloneIsRefreshIfCurrent | packages/cli-core/src/tokenstore.rs:75-93 | a caller that nobody interrupts ends, and leaves the tokens, as the operation does when called alone |
| TokenRace.StaleCallerReuses | packages/cli-core/src/tokenstore.rs:84-87 | a caller whose token was rotated away never exchanges |
| TokenRace.ConsumedNeverPresented | packages/cli-core/src/tokenstore.rs:25-28 | with fresh refresh tokens a consumed one is never presented again |
| Cancellation.RedisCancelChecker.CachedBatchCancel | packages/common/src/cancel.rs:124-135 | answers an unexpired entry and removes an expired one |
| Cancellation.RedisCancelChecker.CacheBatchCancel | packages/common/src/cancel.rs:137-156 | sweeps a large cache, then stores the answer for its lifetime |
| Cancellation.RedisCancelChecker.CheckWithCache | packages/common/src/cancel.rs:180-205 | a check answers whether the batch, as cached or read, or the operation is cancelled, without a batch what the uncached check does; it fails exactly if a read it needs fails, and leaves the cache with these accesses made |
| Cancellation.CacheStaysBacked | packages/common/src/cancel.rs:124-156 | whatever accesses any tasks make, each cached answer is one Redis gave that recently |
| Cancellation.AnswerIsKept | packages/common/src/cancel.rs:124-156 | whatever else is asked, an answer stays cached for 60 s if the key was there and 50 ms if not, and no longer |
| Cancellation.KeysAreDistinct | packages/common/src/cancel.rs:21-27 | keys of different batches and operations never collide |
| Cancellation.CheckAgreesWithRedis | packages/common/src/cancel.rs:180-205 | a check differs from Redis at most by a batch key seen less than 50 ms (absent) or 60 s (present) before the lookup, plus the caching delay, and without a batch not at all |
| Cancellation.SetKeyIsReported | packages/common/src/cancel.rs:67-86 | a batch key set 50 ms and the caching delay before a check, and still set, is always reported |
| Cancellation.SteadyKeyIsExact | packages/common/src/cancel.rs:67-86 | if the batch key has been steady for 60 s and the caching delay, or there is no batch, a cached check answers what the uncached one does |
| Cancellation.SweepsAreInvisible | packages/common/src/cancel.rs:145-148 | whatever accesses were made, with any number of sweeps, lookups from a time on are as without sweeping exactly when no access had a later clock |
| Cancellation.SweepIsInvisible | packages/common/src/cancel.rs:145-148 | a single sweep changes no lookup exactly when the lookup's clock is not the earlier one |
| Glob.GlobMatch | packages/dev-cli/src/dev_config.rs:175-213 | the loop and its recursion terminate and compute `Glob` |
| Glob.GlobDecides | packages/dev-cli/src/dev_config.rs:175-213 | unless it panics the matcher decides whether the text is one piece for each pattern character |
| Glob.GlobOnAscii | packages/dev-cli/src/dev_config.rs:175-213 | on ASCII texts it always does |
| Glob.SafeIffAscii | packages/dev-cli/src/dev_config.rs:187-193 | it panics for no pattern on exactly the ASCII texts |

## Left out

- Floats.F64: rounding, overflow of a difference to infinity and signed zero are not modelled; arithmetic is exact.
- Streams.Sink: `flush` and buffering of standard output are not modelled.
- Argument parsing, the warnings of `finalize` and opening the answer file.
- Pool: a poisoned mutex and a panicking factory are not modelled.
- PoolMachine: a recycling is one step, since it touches only the caller's own lease; so the moment when old and new
  instance coexist is not visible.
- TokenRace.SingleFlight: `update` called from outside takes no refresh lock and is excluded; the issuer is taken never to
  repeat an access token.
- Hooks.Dispatch: a notify hook leaves no trace that a blocking hook could see, such as a changed database row; the
  registry does not change during a dispatch.
- Background dispatch with its cache of dispatched events, and the database queries around the merge.
- Cancellation: connecting, reconnecting after an error, and the script that sets keys in bulk.
- Glob: `should_ignore` and `classify_file`, which only choose what to match.
- `RetryTracker`, permissions, routing, configuration, the web interface and the command lines: plumbing around these
  components.
