# HeraMind in Dafny

A model of the stateful core of HeraMind, with proofs about every input, every run or every
interleaving. `dafny verify dfyconfig.toml` checks the whole project.

| file | component | main results |
|---|---|---|
| `LptSharding.dfy` | the evaluation sharder | Graham's bound 3n·L <= (4n-1)·OPT against every split, tight for every n; partition; balance |
| `AuthStore.dfy` | users and sessions, cached in front of two tables | the two layers implement an operation log; restarts change no verdict; what failed commits can and cannot cause |
| `AuthAccounts.dfy` | what the user store answers | every reply, the stored accounts and the identity of every token, from the log of operations alone |
| `SlidingWindow.dfy` | the login and signup throttle | the pruned map counts what a full event log counts; exact end of a lockout; admission bound |
| `ConcurrencyLimiter.dfy` | the lock-free permit counter | permits never exceed the base, with stale loads; the exact serial maximum |
| `HistoryBudget.dfy` | token budget and truncation | the longest fitting tail; order; when the whole prompt fits |
| `OverflowRetry.dfy` | the three-attempt stream | at most three calls; permits balanced on every exit; output of the attempts spliced |
| `StreamSlot.dfy` | one stream per session | mutual exclusion; freed once, by its owner; exactly when a cancellation is harmless |
| `SessionRestore.dfy` | double-checked restore | all callers share one agent for ever after; its messages are the persisted ones |
| `MemoryText.dfy`, `MemoryMerge.dfy` | the memory files | into any file: size bound, what is kept, what the store refuses, idempotence and duplicates, each with its exact condition |
| `ImageResolve.dfy` | image input dispatch | base64 round trip; the two MIME sniffers agree; the outcome for every text |
| `ApiKeyReload.dfy` | API-key cache | spaced reloads under any clock; no transient miss; load after save |

Each component is modelled by pure step functions, runs are sequences of steps, and the imperative
code is proved equal to the step functions: `AuthUserState` and `SlidingWindowCounter` are classes,
the loops of the sharder, the truncation, the retry, the parser, the merge and the table rewrite are
methods. Concurrent code is a machine whose steps are single atomic accesses or critical sections.

Where the code does not do what it says, the model follows the code and a lemma shows it:

- The validator accepts a token at the very second `exp + 30`; the boot loader and the reaper drop its
  session then (`AuthStore.GraceBoundaryDiffers`, `AuthStore.RestartChangesNoVerdict`).
- A lockout is documented to end when the oldest counted event leaves the window. With more than
  `max_events` counted it ends later, and the retry hint is too short (`SlidingWindow.LockoutEnds`,
  `SlidingWindow.RetryHintTooShort`).
- Tool definitions are sent even when the budget counts none (`HistoryBudget.UncountedToolsFitIff`).
- The configured concurrency is out of reach of serial callers from 6 on
  (`ConcurrencyLimiter.ConfiguredMaximumUnreachable`); a configuration of 0 still yields a limit of 1
  (`ConcurrencyLimiter.LimitWithinBase`).
- `cancel_session` frees a slot whose stream is still running (`StreamSlot.LiveCancelBreaksExclusion`).
- A fact that itself starts with a bullet is stored again on every extraction (`MemoryMerge.RepeatIsNoOpIff`), and a
  fact that occurs twice in one answer is stored twice (`MemoryMerge.MergeDistinctIff`).
- The merge takes its limit from the configuration, the store that writes the file keeps its default one and refuses
  longer texts. A merge can write one character over its limit, so even with equal limits some extractions are lost,
  and raising the configured limit only loses more (`MemoryMerge.NeverRefusedIff`). The first merge also drops the
  white space at the end of the header line "> Last updated: ", which is why what a file says is compared up to
  white space at line ends.
- A JPEG shorter than 22 bytes, given as base64, is taken for a path (`ImageResolve.JpegRoundTrip`). The
  comment on `looks_like_raw_base64` gives 256 characters as the length of magic-less data; the code asks for 1024.

## Model

| member | source | states |
|---|---|---|
| LptSharding.BalancedWithinGraham | eval/shard_run.py:23-31 | for every dictionary of counts, every n >= 1 and every way to split the workflows over n shards, each greedy load L satisfies 3n·L <= (4n-1)·(largest load of that split); with the best split this is Graham's 4/3 - 1/(3n) guarantee |
| LptSharding.LargeJobsFit | eval/shard_run.py:27-28 | if all jobs exceed a third of a makespan that some schedule of them meets, largest-first placement leaves a shard where the last job also meets it: no other schedule does better on large jobs |
| LptSharding.PlacementBound | eval/shard_run.py:27-30 | one largest-first placement on the least-loaded shard stays within Graham's ratio of any schedule of the same jobs |
| LptSharding.ShardsHoldEverything | eval/shard_run.py:25-31 | the shards together hold every workflow exactly as often as the input: nothing lost, nothing duplicated |
| LptSharding.LoadsAreShardTotals | eval/shard_run.py:26-31 | each reported load is the total case count of its own shard |
| LptSharding.GreedyBalanced | eval/shard_run.py:27-30 | any two shards differ by at most the largest workflow, in whatever order workflows are placed |
| LptSharding.SortIsStable | eval/shard_run.py:27 | the order the loop sees is descending, and workflows of equal count keep their dictionary order |
| LptSharding.SortDescending | eval/shard_run.py:27 | sorting is a permutation |
| LptSharding.FirstMin | eval/shard_run.py:28 | the chosen shard is the first among those with the smallest load |
| LptSharding.SplitLoadOfPermutation | eval/shard_run.py:23-31 | the loads of a split do not depend on the order in which workflows are listed, so OPT is a property of the dictionary |
| LptSharding.PlaceAll | eval/shard_run.py:25-31 | the loop over the two lists yields the plan the theorems are about |
| LptSharding.BalancedShards | eval/shard_run.py:23-31 | the whole function, with `ValueError` exactly for n <= 0 and a non-empty dictionary |
| LptSharding.GrahamIsTight | eval/shard_run.py:23-31 | the factor cannot be lowered for any n: a dictionary of 2n+1 workflows whose fullest greedy shard is 4n-1 against a split of 3n, so that a load one larger would break the ratio |
| AuthStore.VerdictIsLogVerdict | crates/heramind-api/src/auth_users.rs:971-1383 | in every run whose session writes commit and whose clock is monotone, a token inside its grace is accepted if and only if some login or registration issued it and no later logout, deletion or password change removed it; its user then exists |
| AuthStore.OrderlyRun | crates/heramind-api/src/auth_users.rs:528-620 | in such a run memory is a subset of the persisted rows with equal contents, every row missing from memory is past its grace, both layers agree on users, and memory holds the token the log says is live |
| AuthStore.RestartChangesNoVerdict | crates/heramind-api/src/auth_users.rs:528-576 | a restart at any point leaves the verdict on every token, well-formed or not, unchanged, except from accepted to revoked at the second its grace ends; the verdict changes if and only if it was accepted and its session's own expiry plus grace is not after the restart |
| AuthStore.GraceBoundaryDiffers | crates/heramind-api/src/auth_users.rs:546-550 | that exception occurs: one registration and a restart at `exp + 30` turn an accepted token into a revoked one |
| AuthStore.AcceptedMeansIssuedOrResurrected | crates/heramind-api/src/auth_users.rs:631-768 | with arbitrary failures and clocks, an accepted token was issued and not removed since; or since its last issue it was removed, none of its removals committed, and a restart came after the last of them |
| AuthStore.UncommittedLogoutResurrects | crates/heramind-api/src/auth_users.rs:740-768 | the second case occurs: a logout whose commit fails, then a restart, makes the token valid again |
| AuthStore.RunTracks | crates/heramind-api/src/auth_users.rs:1031-1383 | in every run, a session in memory or on disk carries the name in its token and is there only if the token's history allows it |
| AuthStore.FateExplained | crates/heramind-api/src/auth_users.rs:1031-1383 | the history of a token read off the log, both ways: live if and only if issued and kept, resurrected if and only if every removal since the last issue failed to commit, there was one, and a restart followed the last |
| AuthStore.UsersAlwaysAgree | crates/heramind-api/src/auth_users.rs:840-889 | whatever user and session commits fail, memory and table agree on every user field except the last login after every operation |
| AuthStore.RefusalChangesNothing | crates/heramind-api/src/auth_users.rs:1031-1383 | an operation that reports an error changed neither layer |
| AuthStore.RestartKeepsLoginOutcomes | crates/heramind-api/src/auth_users.rs:1192-1296 | after any run, a restart changes the answer to no login attempt |
| AuthStore.OfflineResetTakesEffect | crates/heramind-api/src/auth_users.rs:1203-1239 | after any run and an offline rewrite of a user's hash, the new password logs in without a restart, and that login brings the cache back in line with the table if and only if the hash is unchanged or the password does not match the old one |
| AuthAccounts.AccountsFollowLog | crates/heramind-api/src/auth_users.rs:1031-1383 | after every run, whatever commits failed, both layers hold for every name exactly the account the log of answered operations tells: identity and role of its registration, the hash it last got, its logins; none after a deletion |
| AuthAccounts.LoginAnswersByLog | crates/heramind-api/src/auth_users.rs:1192-1288 | a login is answered with a token if and only if the log has an account of that name and the password matches the hash it last got; the token carries that account's identity; every other login is refused for its credentials |
| AuthAccounts.LoginAnswersByRow | crates/heramind-api/src/auth_users.rs:1192-1240 | over any tables, disabled users included, a login is answered by the user's row: unknown, disabled, wrong password, or a token of that user |
| AuthAccounts.RegisterAnswersByLog | crates/heramind-api/src/auth_users.rs:1031-1117 | when a registration succeeds, and which refusal answers every other case, by the log alone |
| AuthAccounts.ChangeAnswersByLog | crates/heramind-api/src/auth_users.rs:1340-1383 | a password change is done if and only if the new password is long enough, the current one matches the log's hash, and hash and row can be made; which refusal answers every other case |
| AuthAccounts.DeleteAnswersByLog | crates/heramind-api/src/auth_users.rs:1313-1337 | a deletion is done if and only if the log has the account and the row's removal commits; otherwise not found, or a database error |
| AuthAccounts.ChangedPasswordDecides | crates/heramind-api/src/auth_users.rs:1340-1383 | after a change that was answered done, until the next registration, deletion or change of the name, every login is answered by the new hash alone |
| AuthAccounts.OfflineResetAnswers | crates/heramind-api/src/auth_users.rs:1203-1239 | while an offline reset has not reached the cache, the old and, if the table can be read, the new password log in, and no other |
| AuthAccounts.AcceptedTokenIdentifies | crates/heramind-api/src/auth_users.rs:971-1028 | in every run, an accepted token was issued by some registration or login in the log and validates to exactly that account's identifier, name and role, from its minting for seven days |
| AuthAccounts.RoleNames | crates/heramind-api/src/auth_users.rs:109-126 | the role names of the wire format, and that each parses back to its role and nothing else does |
| AuthAccounts.VerdictReasons | crates/heramind-api/src/auth_users.rs:971-1028 | when a token is invalid, expired, revoked or accepted, each by an if-and-only-if, for every store, token and time |
| AuthAccounts.SessionsFollowLog | crates/heramind-api/src/auth_users.rs:1085-1098 | in every run, every session in memory or in the table is the one that some issue of its token opened, for that account and those times |
| AuthAccounts.NothingExpiredKept | crates/heramind-api/src/auth_users.rs:1265-1275 | nothing past its grace survives a boot in memory, nor in the table if the purge commits, nor a login in memory |
| AuthStore.AuthUserState.constructor | crates/heramind-api/src/auth_users.rs:454-475 | booting on the tables a previous process left yields the store the restart step describes |
| AuthStore.AuthUserState.LoadSessions | crates/heramind-api/src/auth_users.rs:528-576 | exactly the rows inside their grace are loaded, and the others purged if the cleanup commits |
| AuthStore.AuthUserState.ValidateToken | crates/heramind-api/src/auth_users.rs:971-1028 | the verdict is that of the specification, whose reasons and identities `AuthAccounts` pins down |
| AuthStore.AuthUserState.Register | crates/heramind-api/src/auth_users.rs:1031-1117 | both layers and the reply after a registration, including its refusals and failed commits |
| AuthStore.AuthUserState.Login | crates/heramind-api/src/auth_users.rs:1192-1288 | both layers and the reply after a login, including the rescue of a stale cached hash and the reaping of expired sessions; which reply that is, `AuthAccounts.LoginAnswersByLog` says |
| AuthStore.AuthUserState.Logout | crates/heramind-api/src/auth_users.rs:1291-1296 | one session leaves memory, and the table if the commit succeeds |
| AuthStore.AuthUserState.DeleteUserSessions | crates/heramind-api/src/auth_users.rs:631-707 | which rows survive and what success is reported, for a failed open, a failed read and at most two commit attempts |
| AuthStore.AuthUserState.RevokeUserSessions | crates/heramind-api/src/auth_users.rs:711-738 | memory is always cleared of the user, the table as the database allows |
| AuthStore.AuthUserState.DeleteUser | crates/heramind-api/src/auth_users.rs:1313-1337 | both layers and the reply; nothing changes unless the row's deletion commits |
| AuthStore.AuthUserState.ChangePassword | crates/heramind-api/src/auth_users.rs:1340-1383 | both layers and the reply; nothing changes unless the row's update commits, and `AuthAccounts` says which hash logins obey afterwards |
| SlidingWindow.MapRefinesLog | crates/heramind-api/src/auth_users.rs:228-260 | at every time the pruned, swept map and a never-pruned log hold the same events of the window, in the same order, for every key |
| SlidingWindow.CheckCountsTheLog | crates/heramind-api/src/auth_users.rs:228-239 | a check fails if and only if at least `max_events` events recorded since the last clear lie inside the window |
| SlidingWindow.LockoutEnds | crates/heramind-api/src/auth_users.rs:225-239 | with n counted events and nothing recorded meanwhile, the key is admitted again if and only if the event of index n - max_events has left the window |
| SlidingWindow.RetryHintIsRemaining | crates/heramind-api/src/auth_users.rs:233-236 | the reported wait is the whole seconds until the oldest counted event leaves the window, at least one |
| SlidingWindow.RetryHintSuffices | crates/heramind-api/src/auth_users.rs:233-236 | with exactly `max_events` counted, a check one second after the reported wait succeeds |
| SlidingWindow.RetryHintSufficesIff | crates/heramind-api/src/auth_users.rs:228-239 | for any number of counted events, a check one second after the reported wait succeeds if and only if the event of index n - max_events has left the window by then |
| SlidingWindow.RetryHintTooShort | crates/heramind-api/src/auth_users.rs:233-236 | with more than `max_events` counted the hint fails under every configuration with a window over two seconds: `max_events` events one second before the oldest leaves |
| SlidingWindow.AdmissionBound | crates/heramind-api/src/auth_users.rs:1172-1189 | over any sequence of check-then-record attempts, every half-open interval one window long holds at most `max_events` admitted attempts per key |
| SlidingWindow.RecentAgain | crates/heramind-api/src/auth_users.rs:232-250 | pruning at an earlier time loses nothing a later check counts |
| SlidingWindow.SlidingWindowCounter.Check | crates/heramind-api/src/auth_users.rs:228-239 | the map and the answer after a check |
| SlidingWindow.SlidingWindowCounter.Record | crates/heramind-api/src/auth_users.rs:242-254 | the map after a record, with the sweep above 10,000 keys |
| SlidingWindow.SweepDropsExpired | crates/heramind-api/src/auth_users.rs:242-254 | once more than 10,000 keys are held, a record leaves no other key without an event inside the window |
| ConcurrencyLimiter.PermitsNeverExceedBase | crates/heramind-agent/src/llm.rs:80-104 | for any number of threads interleaving at each load, store, compare-and-swap and drop, with loads that may be stale, the counter is the number of live permits, at most the base, and the limit stays between 1 and the base |
| ConcurrencyLimiter.LimitWithinBase | crates/heramind-agent/src/llm.rs:122-145 | the stored limit lies between 1 and the base for all loads and memory sizes if and only if the base is positive |
| ConcurrencyLimiter.LimitByClass | crates/heramind-agent/src/llm.rs:122-145 | the limit for each class of memory and load: 50, 75, 85 percent of the base, rounded down but never to zero, or all of it |
| ConcurrencyLimiter.LimitIsMonotone | crates/heramind-agent/src/llm.rs:122-145 | less memory or more load never raises the limit |
| ConcurrencyLimiter.AcquiresIffBelowLimit | crates/heramind-agent/src/llm.rs:84-103 | a thread whose last load is current gets a permit if and only if the count is below the limit it saw, and gives up otherwise |
| ConcurrencyLimiter.SerialPermitsWithinCap | crates/heramind-agent/src/llm.rs:80-145 | when acquisitions do not overlap and 2 GB are free, live permits never exceed min(b, max(4b/5 + 1, 17b/20)), whatever drops interleave |
| ConcurrencyLimiter.SerialCapIsReached | crates/heramind-agent/src/llm.rs:80-145 | that bound is exact: every count up to it is reached by such a run |
| ConcurrencyLimiter.ConfiguredMaximumUnreachable | crates/heramind-agent/src/llm.rs:136-142 | so the configured maximum is out of reach of serial callers if and only if it is at least 6 |
| HistoryBudget.KeptTailIsLongest | crates/heramind-agent/src/llm.rs:2146-2163 | a tail of the history, pinned message aside, fits the budget if and only if it starts no earlier than the kept one |
| HistoryBudget.EachKeptOnce | crates/heramind-agent/src/llm.rs:2113-2168 | no message is kept twice, and a history of at most 12 messages keeps its first user message |
| HistoryBudget.KeptIff | crates/heramind-agent/src/llm.rs:2113-2168 | exactly which positions are kept, by the tokens from there on: all if they fit; else the first user message of a history of at most 12, and what fits beside it |
| HistoryBudget.NonSystemKeeps | crates/heramind-agent/src/llm.rs:2097-2101 | the history considered is exactly the messages that are not the system's, in order |
| HistoryBudget.BudgetByClass | crates/heramind-agent/src/llm.rs:571-585 | 50, 60 or 70 percent by class of context, and five points less for a thinking model |
| HistoryBudget.ToolCounts | crates/heramind-agent/src/llm.rs:587-612 | each tool definition counts wherever it stands, except in compact mode those other than the shell |
| HistoryBudget.OrderKeptIff | crates/heramind-agent/src/llm.rs:2127-2168 | a truncated history is in conversation order if and only if there is no pin, or the pin is first, or what starts just before it does not fit |
| HistoryBudget.KeptTokens | crates/heramind-agent/src/llm.rs:2113-2168 | everything is kept when it fits; otherwise the kept tokens are the pin's plus at most what the pin leaves |
| HistoryBudget.PromptFitsIff | crates/heramind-agent/src/llm.rs:545-640 | when the tools sent are counted, the whole prompt fits its budget if and only if the part truncation cannot drop does; the budget is at most 70% of the context |
| HistoryBudget.UncountedToolsOvershoot | crates/heramind-agent/src/llm.rs:2184-2202 | tools sent but not counted exceed the budget by no more than their own tokens |
| HistoryBudget.UncountedToolsFitIff | crates/heramind-agent/src/llm.rs:2184-2202 | with tools sent but not counted, every history whose fixed part fits still gives a fitting prompt if and only if no tools are sent, or the reserve never fits, or it fits an empty history only and leaves room for the tools |
| HistoryBudget.UncountedToolsOvershootFully | crates/heramind-agent/src/llm.rs:2184-2202 | as soon as one message fits, some history is sent whole and exceeds the budget by all the tools |
| HistoryBudget.UncountedToolsCanOvershoot | crates/heramind-agent/src/llm.rs:1961-1970 | one such chat: a 32k context with 500 tokens of tools |
| HistoryBudget.CompactIff | crates/heramind-agent/src/llm.rs:1923-1943 | compact mode, which sends only the shell tool, is chosen if and only if the context is below 10000 tokens |
| HistoryBudget.KeepRecent | crates/heramind-agent/src/llm.rs:2146-2163 | the backward scan keeps the longest fitting tail, in order |
| HistoryBudget.Truncate | crates/heramind-agent/src/llm.rs:2127-2168 | the truncation branch keeps the pin followed by that tail |
| HistoryBudget.SelectHistory | crates/heramind-agent/src/llm.rs:2113-2178 | the messages put into the prompt are those the theorems describe |
| HistoryBudget.FilterHistory | crates/heramind-agent/src/llm.rs:2097-2101 | the filter loop yields that history |
| HistoryBudget.BuildPrompt | crates/heramind-agent/src/llm.rs:2094-2182 | the prompt is the system message, the kept history and the question; without a history, just the two |
| OverflowRetry.TraceReleasesEverything | crates/heramind-agent/src/llm.rs:2216-2305 | for every behaviour of finite backend streams, a chat never holds two permits, never yields without one after a stream opened, and ends with none |
| OverflowRetry.TraceAccounted | crates/heramind-agent/src/llm.rs:2216-2305 | after every prefix of events, exactly one local of the function owns a permit if one was acquired and not released, and none does otherwise |
| OverflowRetry.EarlyDropReleases | crates/heramind-agent/src/llm.rs:194-202 | dropping the locals after any number of events leaves no permit behind and releases none twice |
| OverflowRetry.AtMostThreeCalls | crates/heramind-agent/src/llm.rs:2062-2091 | between one and three backend calls: the full prompt, then at most six messages ending in the user's, then exactly system and user |
| OverflowRetry.CallsByPosition | crates/heramind-agent/src/llm.rs:2062-2091 | exactly which calls: a second if and only if the first stream overflows, holding the last four non-system messages (all, if fewer) in order between system and question; a third if and only if the second overflows too, without history |
| OverflowRetry.OutputIsDelivered | crates/heramind-agent/src/llm.rs:2231-2305 | the consumer sees each attempt's text up to its first overflow, then the next attempt's, and an error only when a retry is refused or none is left |
| OverflowRetry.BeforeIsCarried | crates/heramind-agent/src/llm.rs:2236-2244 | letter by letter and flag by flag, a stream is passed on up to its first overflow; blank chunks leave no trace |
| OverflowRetry.PlainChatDelivers | crates/heramind-agent/src/llm.rs:2231-2305 | a chat that does not overflow delivers exactly the letters and errors of its stream |
| OverflowRetry.PlayCalls | crates/heramind-agent/src/llm.rs:2245-2290 | there is one further backend call per overflow that is answered by another attempt |
| OverflowRetry.ChatStream | crates/heramind-agent/src/llm.rs:2213-2305 | the loop that swaps streams terminates, by retry stage and remaining chunks, with that trace and those owners |
| StreamSlot.AtMostOneHolder | crates/heramind-agent/src/session.rs:642-653 | in every interleaving of registrations, ends, early drops and delayed cleanups, with no cancellation of a live stream of the session, at most one stream counts on its slot |
| StreamSlot.FreedExactlyOnce | crates/heramind-agent/src/session.rs:205-241 | in every run at all, a stream frees once when it is done and never before, and a polled stream can end no other way |
| StreamSlot.FreesItsOwnSlot | crates/heramind-agent/src/session.rs:1633-1645 | the entry a stream removes is its own registration, and the next registration gets the slot |
| StreamSlot.LiveCancelBreaksExclusion | crates/heramind-agent/src/session.rs:722-733 | cancelling a slot that any stream counts on has a continuation without further cancellations in which two streams of the session run at once |
| StreamSlot.CancelHarmlessIff | crates/heramind-agent/src/session.rs:722-733 | a cancellation is harmless in every continuation if and only if no stream counts on the slot |
| StreamSlot.LeftBehindBlocksSession | crates/heramind-agent/src/session.rs:1611-1631 | once a slot belongs to a stream that failed to start or was never polled, every continuation without a cancellation of the session keeps it taken, no stream counts on it, and every registration is rejected; a cancellation reopens it |
| StreamSlot.UnstartedStreamLeavesSlot | crates/heramind-agent/src/session.rs:1611-1631 | a registered stream whose creation fails, or that is dropped unpolled, leaves its slot behind like that |
| SessionRestore.AllCallersShareOneAgent | crates/heramind-agent/src/session.rs:842-924 | in every interleaving of any number of callers, any two callers of a session, now or later, get the same agent, and it stays the one in the map |
| SessionRestore.OneWinnerPerSession | crates/heramind-agent/src/session.rs:896-924 | only one caller per session inserts its agent and stores the loaded messages |
| SessionRestore.WinnerStoresHistory | crates/heramind-agent/src/session.rs:887-924 | once the caller that inserted its agent has returned, the session's messages are the persisted history |
| SessionRestore.FoundIffPersisted | crates/heramind-agent/src/session.rs:848-858 | a caller of a persisted session is never told that it does not exist, and of any other it never gets an agent |
| SessionRestore.LoneCallerRestores | crates/heramind-agent/src/session.rs:842-924 | an undisturbed caller of a persisted session gets the agent it built |
| MemoryMerge.MergedWithinLimit | crates/heramind-agent/src/session.rs:1232-1280 | whatever the file and the facts, the text a merge writes exceeds its limit by at most one character |
| MemoryMerge.FileStaysWithinLimit | crates/heramind-storage/src/system_memory.rs:551-571 | over any run from any file, with any facts and failing writes, a file that changed is within the store's limit and within the merge's limit plus one |
| MemoryMerge.RefusedIff | crates/heramind-storage/src/system_memory.rs:551-571 | the store refuses a merge if and only if the draft is within the merge's limit but over the store's, or, past the merge's limit, the lines that fit fill the store's |
| MemoryMerge.NeverRefusedIff | crates/heramind-storage/src/system_memory.rs:551-571 | the store refuses no merge at all if and only if its limit is above the merge's; with equal limits some are refused and their facts lost |
| MemoryMerge.LinesOnlyExtend | crates/heramind-agent/src/session.rs:1232-1280 | from any file whose lines fit, over any run, what the file says (its nonblank lines, white space at line ends aside) only grows by extension |
| MemoryMerge.MergeAppends | crates/heramind-agent/src/session.rs:1232-1280 | one merge into any file whose lines fit appends the first fresh facts as bullets, all of them if and only if the wanted lines fit |
| MemoryMerge.NothingLostIff | crates/heramind-agent/src/session.rs:1262-1278 | a merge into any file keeps all it said if and only if the file's own lines fit the limit |
| MemoryMerge.MergedContent | crates/heramind-agent/src/session.rs:1232-1280 | into any file whatever: nothing is written if and only if no fact is fresh; otherwise the new file says what the old lines and the fresh facts say, cut at the first line that does not fit |
| MemoryMerge.FreshKeepsOrder | crates/heramind-agent/src/session.rs:1246-1249 | the facts added are exactly those of the batch that the file does not know, in order |
| MemoryMerge.MergedIsRoomy | crates/heramind-agent/src/session.rs:1262-1278 | whatever a merge writes has lines that fit, even when it fills the limit, so a later merge loses nothing |
| MemoryMerge.InitialFilesAreRoomy | crates/heramind-storage/src/system_memory.rs:495-513 | the files the store creates before the first merge fit the default limits |
| MemoryMerge.RepeatChangesNothing | crates/heramind-agent/src/session.rs:1232-1252 | whatever the file, the normalisation and the store's limit, repeating a batch that fitted, none of whose facts starts with a bullet, changes nothing |
| MemoryMerge.MergeDistinctIff | crates/heramind-agent/src/session.rs:1246-1252 | facts are compared with the file only: after a merge that fitted, the new lines repeat nothing if and only if the added facts differ pairwise |
| MemoryMerge.RunStaysDistinct | crates/heramind-agent/src/session.rs:1232-1280 | over any run of batches of pairwise different facts, no remembered line ever repeats an earlier line of the file |
| MemoryMerge.StoredFactRecognisedIff | crates/heramind-agent/src/session.rs:1230-1250 | a stored fact compares equal to itself if and only if it does not start with a bullet |
| MemoryMerge.NormIgnoresSpaceAndCase | crates/heramind-agent/src/session.rs:1230-1231 | white space may be added anywhere, and letters of the same lower case exchanged, without a change to the normal form |
| MemoryMerge.NormKeepsVisible | crates/heramind-agent/src/session.rs:1230-1231 | every visible lower-case letter shows in the normal form |
| MemoryMerge.RepeatIsNoOpIff | crates/heramind-agent/src/session.rs:1230-1280 | a fact unknown to a file, any file, and fitting it is stored; extracting it again is a no-op if and only if it does not start with a bullet |
| MemoryMerge.ParsedFactsAreGood | crates/heramind-agent/src/session.rs:1188-1215 | whatever the model answers, a parsed fact is one nonempty line with nothing to trim at its end, as the merge theorems require |
| MemoryMerge.AnswerYieldsFact | crates/heramind-agent/src/session.rs:1191-1215 | every trimmed fact that does not open with a separator can be extracted, in either kind; one that opens with a round bullet in particular |
| MemoryMerge.SeparatorIsDropped | crates/heramind-agent/src/session.rs:1195-1204 | a colon, the word fact or a dash after the tag is not part of the fact |
| MemoryMerge.FactsComeFromTaggedLines | crates/heramind-agent/src/session.rs:1191-1215 | only bulleted lines with a tag yield facts, of the tag's kind, and the fact ends the line |
| MemoryMerge.FactsKeepOrder | crates/heramind-agent/src/session.rs:1188-1215 | the facts of a kind are those of the lines that yield one, in order |
| MemoryMerge.ParseAnswer | crates/heramind-agent/src/session.rs:1188-1215 | the parsing loop collects the user and the knowledge facts in order, all of them good |
| MemoryMerge.CapLoop | crates/heramind-agent/src/session.rs:1266-1275 | the cap loop keeps the leading lines that fit |
| MemoryMerge.MergeFacts | crates/heramind-agent/src/session.rs:1232-1280 | the merge closure, loop by loop, computes the specified file |
| ImageResolve.DecodeEncode | crates/heramind-agent/src/image_utils.rs:313-314 | decoding undoes encoding for every byte string |
| ImageResolve.DecodesOnlyItsEncoding | crates/heramind-agent/src/image_utils.rs:313-314 | strict decoding yields given bytes from exactly one text, their encoding |
| ImageResolve.AlphabetIs | crates/heramind-agent/src/image_utils.rs:313-314 | the alphabet is the standard one of section 4 of RFC 4648 |
| ImageResolve.GroupValue | crates/heramind-agent/src/image_utils.rs:313-314 | three bytes and the four codes that spell them are the same 24-bit number, most significant first |
| ImageResolve.MimesAgree | crates/heramind-agent/src/image_utils.rs:84-100 | the type inferred from base64 text and the type detected from the bytes behind it are equal whenever both exist |
| ImageResolve.DetectedIff | crates/heramind-agent/src/image_utils.rs:566-585 | the byte patterns of each type the byte sniffer reports, each by an if-and-only-if |
| ImageResolve.InferMimeOfEncoding | crates/heramind-agent/src/image_utils.rs:84-100 | exactly which byte patterns each text prefix stands for, bits of a split group included |
| ImageResolve.LooksLikeEncoding | crates/heramind-agent/src/image_utils.rs:602-633 | encoded bytes are recognised as raw base64 if and only if they carry a magic prefix and number at least 22, or number at least 766 |
| ImageResolve.ResolveOfEncoding | crates/heramind-agent/src/image_utils.rs:288-360 | the branch and result for every encoded byte string and size limit, said of the bytes alone |
| ImageResolve.OutcomeIff | crates/heramind-agent/src/image_utils.rs:166-360 | for every text and limit: fetched if and only if it starts with http:// or https://; read as internal if and only if it starts with /api/images/; refused for its scheme, and read as a local path, each if and only if a condition on the text holds |
| ImageResolve.DataUrlOutcomeIff | crates/heramind-agent/src/image_utils.rs:171-225 | for every data URL, which refusal answers it, in order, or the bytes its data encodes with the type it names |
| ImageResolve.RawOutcomeIff | crates/heramind-agent/src/image_utils.rs:288-360 | for every other text taken as data, which refusal answers it, or the bytes it encodes |
| ImageResolve.ImageIff | crates/heramind-agent/src/image_utils.rs:288-360 | a text that is no data URL yields bytes if and only if it is their encoding and that resolves to them |
| ImageResolve.LooksLikeIff | crates/heramind-agent/src/image_utils.rs:602-633 | the base64 heuristic, by character classes, prefixes and lengths |
| ImageResolve.JpegRoundTrip | crates/heramind-agent/src/image_utils.rs:288-336 | JPEG bytes within the limits come back unchanged as image/jpeg if and only if there are at least 22 of them; shorter ones are read as a local path |
| ImageResolve.DataUrlRoundTrip | crates/heramind-agent/src/image_utils.rs:171-225 | a data URL in any letter case, with or without `data:`, and any allowed subtype yields the encoded bytes and that type, up to the size limits |
| ImageResolve.PathIsNotDecoded | crates/heramind-agent/src/image_utils.rs:239-336 | an input that starts with a slash is read as a path if and only if it is no internal URL, has no scheme and does not look like base64; it is decoded only if it does |
| ImageResolve.Find | crates/heramind-agent/src/image_utils.rs:191 | splitting uses the first occurrence of the separator |
| ApiKeyReload.ReloadsAreSpaced | crates/heramind-api/src/auth.rs:390-411 | under any interleaving and any clock readings, even ones that go back, the timestamps of winning reloads ascend with gaps of at least 5000 ms |
| ApiKeyReload.UndisturbedThreadWinsIff | crates/heramind-api/src/auth.rs:390-411 | after any run, an undisturbed thread wins a reload if and only if its clock reads at least 5 seconds after the last win; otherwise it skips and nothing changes |
| ApiKeyReload.NoTransientMiss | crates/heramind-api/src/auth.rs:412-427 | at every single-key step of a reload, a key that was cached and is in the table is found, with its old or new entry; when the reload is done the cache equals the table |
| ApiKeyReload.ReloadCompletes | crates/heramind-api/src/auth.rs:412-427 | a reload can always be carried to its end |
| ApiKeyReload.KeyVerdict | crates/heramind-api/src/auth.rs:371-385 | a key is valid if and only if it is cached as active, or not cached and active in the table |
| ApiKeyReload.ReloadKeepsInv | crates/heramind-api/src/auth.rs:412-427 | what holds of the half-refreshed cache during insertion and during retention |
| ApiKeyReload.SaveToDb | crates/heramind-api/src/auth.rs:259-296 | after the rewrite the key table holds exactly the cached keys, each with its ciphertext and metadata; metadata that had no key stays |
| ApiKeyReload.LoadedRow | crates/heramind-api/src/auth.rs:183-256 | which rows are loaded and with which metadata; a row without any gets the permissive default |
| ApiKeyReload.LoadAfterSave | crates/heramind-api/src/auth.rs:183-256 | loading what was saved gives back exactly the cached keys that decrypt |

## Left out

- redb, bincode, bcrypt, AES and file permissions: a table is a map whose transactions commit or fail as a whole; an unreadable or undecodable row is not modelled.
- SHA-256 and HMAC: the row key of a token is an arbitrary injective function, the signature and the password check are arbitrary functions.
- Interleavings inside `login` and `register`, which release the users lock between their steps: each operation is one atomic step.
- The offline command that rewrites a password row, as a step of runs: it appears once, after a run, in `AuthStore.OfflineResetTakesEffect`; no longer run contains it.
- Users that cannot be read at boot: `AuthStore.UsersAlwaysAgree` and what builds on it assume that restarts can read the users table.
- `:memory:` stores, the registration switch, the secret's storage and the two-key wrapper of the login throttle: plumbing over the modelled parts.
- AuthAccounts.RegisterAnswersByLog: minimum lengths count characters, where the code counts the bytes of the UTF-8 text; the same holds of AuthAccounts.ChangeAnswersByLog.
- `max_events` of 0: `check` then indexes an empty list for a key whose events have all expired; no production counter is configured so.
- SlidingWindow.AdmissionBound: an attempt is an atomic check followed by its record; attempts that interleave between the two can exceed the bound.
- ConcurrencyLimiter.SerialPermitsWithinCap: the 0.8, 0.85 and memory thresholds are exact rationals, not 64-bit floating point.
- ConcurrencyLimiter.PermitsNeverExceedBase: a relaxed load may return any number for the counter and any value ever stored for the limit, which allows more than the hardware does.
- Tokenizer, prompt texts, thinking detection: token counts are arbitrary naturals and thinking is a boolean; the multimodal and non-streaming copies of the truncation are not modelled.
- Backend streams that never end, and timing: streams are finite sequences of chunks and errors; parameters of a retry other than its messages are not modelled.
- Removal of sessions during a restore, and `get_or_create_session`: callers only restore.
- Unicode lower-casing: the normal form takes an arbitrary per-character lower-casing, so the context-dependent final sigma is not modelled; the read of the file and the lock around the merge are not modelled, and edits of the file by others are covered only as another starting file.
- HTTP fetching, local file checks and `/api/images/` reading: these branches of the image dispatcher are named outcomes.
- ImageResolve.OutcomeIff: lengths are counted in characters, which differs from bytes only for inputs that are refused as undecodable anyway.
- ApiKeyReload.NoTransientMiss: one reload with no other writer; keys created or deleted while it runs, several processes saving the table, and a reload whose read fails (it changes nothing) are not modelled.
- Web middleware, command line tools, devices, rules, the web interface and the rest of `eval/`: they would add easy members only.
