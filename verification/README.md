# Quiz server and stage harness — a Dafny model

This project models the deterministic core of a small quiz service and of the load-testing harness that exercises it.

The quiz service has three layers:
- a SQLite store of sessions, participants, answers, progress rows and a seeded catalogue of 100 questions;
- `handleJoin` and `handleAnswer` over that store;
- a WebSocket server that validates client messages, keeps a registry of the sockets in each quiz session, and answers every message with an ordered list of outgoing messages.

The harness has three parts:
- stage arithmetic: latency percentiles, the pass/fail verdict, the highest sustainable rate, and the stage-rate list;
- a rate-paced stage runner with a concurrency cap;
- two workload drivers:
  - an in-process driver of simulated users;
  - a WebSocket client that correlates each request with the reply that settles it.

Everything is modelled with immutable datatypes and pure functions. The only method is the driver's warm-up loop.

| module | file | models |
|---|---|---|
| `Wrappers` | wrappers.dfy | `Option` |
| `Sorting` | sorting.dfy | a stable insertion sort by a total preorder; it stands for `Array.prototype.sort` and `ORDER BY` |
| `Decimal` | decimal.dfy | `String(n)`, `padStart(8, "0")` and `Number.parseInt(s, 10)` |
| `Stats` | stats.dfy | `percentile`, `summarizeLatency`, `buildStageResult`, `maxSustainableRps`, `parseStageRpsEnv`, the sampler's peak fold |
| `StageRunner` | stage_runner.dfy | `normalizeOutcome` and `runRpsStage` as a state machine over tick, launch, settle and drain events |
| `WsClient` | ws_client.dfy | the client record, `sendAndWait`, the socket handlers, `pickAvailableClient`, and `runJoin`/`runAnswer` routing |
| `OptionChoice` | option_choice.dfy | `chooseOptionId`, which both drivers define identically |
| `QuizStore` | quiz_store.dfy | every query helper in `db.ts`, over an abstract store |
| `QuizService` | quiz_service.dfy | `buildQuestionPayload`, `handleJoin`, `scoreAnswer`, `handleAnswer` |
| `ServiceDriver` | service_driver.dfy | the simulated users and the stage operation of the in-process driver |
| `Server` | server.dfy | `index.ts`: shape validators, session registry, `handleClientMessage`, and the `message`/`close` handlers |

Time is a parameter throughout:
- clock readings are `int` or `real` arguments;
- `Math.random()` draws are arguments;
- in the stage runner, the environment chooses the order of completions.

The database is an abstract `Store`. It holds:
- a map of sessions;
- a sequence of participant rows, unique on (quiz, user);
- a progress map;
- an append-only answer sequence;
- question and option rows in insertion order.

Timestamps are clock readings. ISO strings of the same clock sort the same way.

Two edge cases worth stating:
- **p50 of two samples.** `percentile` uses index `min(n-1, max(0, ceil(n*0.5) - 1))`. For `[10, 20]` that is index 0, so p50 is 10; `Stats.TwoSampleSummary` states the value.
- **Negative question index.** `getQuestionByIndex` passes its index to `OFFSET`. SQLite reads a negative offset as 0, so the model returns the first question. `buildQuestionPayload` rejects negative indexes before this query runs.

## Model

| member | source | states |
|---|---|---|
| Stats.Ascending | server/bench/_common.ts:100 | the sorted copy is ascending and a permutation of the samples |
| Stats.PercentileIndex | server/bench/_common.ts:87-94 | the nearest-rank index is inside the array, covers at least the quantile's share of the samples, and is the least index that does (clamped at 0) |
| Stats.PercentileIndexOrder | server/bench/_common.ts:87-94 | the p50 index ≤ the p95 index ≤ the p99 index |
| Stats.Percentile | server/bench/_common.ts:87-94 | 0 for no samples, otherwise one of the samples (the nearest-rank index is characterised by `Stats.PercentileIndex`) |
| Stats.SummarizeLatency | server/bench/_common.ts:96-107 | no samples give all zeros; otherwise p50 ≤ p95 ≤ p99 ≤ max, each is one of the samples, max bounds every sample, and non-negative samples give a non-negative p50 |
| Stats.SummaryOfAnyAscendingCopy | server/bench/_common.ts:96-107 | for any ascending rearrangement t of the samples, each percentile is t at the nearest-rank index and max is the last element |
| Stats.SummaryIgnoresOrder | server/bench/_common.ts:96-107 | the summary depends only on the multiset of samples; the input is read, never rearranged |
| Stats.AscendingDeterminedBySamples | server/bench/_common.ts:100 | two sample lists with the same multiset have the same ascending copy |
| Stats.TwoSampleSummary | server/bench/_common.ts:87-106 | `[10, 20]` summarises to p50 = 10 and p95 = p99 = max = 20 |
| Stats.ActualRps | server/bench/_common.ts:271 | the rate is non-finite exactly when the duration is 0, and non-negative for a positive duration |
| Stats.ActualRpsIsRate | server/bench/_common.ts:271 | rate × duration equals total × 1000 |
| Stats.ErrorRate | server/bench/_common.ts:269 | the error rate is 0 without traffic and lies in [0, 1] when errors ≤ total |
| Stats.ErrorRateIsRatio | server/bench/_common.ts:269 | with traffic, rate × total equals errors |
| Stats.ErrorRateWithin | server/bench/_common.ts:269 | rate ≤ m holds iff 0 ≤ m (no traffic) or errors ≤ m × total |
| Stats.BuildStageResult | server/bench/_common.ts:252-288 | the result carries the stage's totals, rate and latency summary; it passes iff the unrounded error rate ≤ maxErrorRate and p95 ≤ maxP95Ms |
| Stats.StagePassCriterion | server/bench/_common.ts:269-285 | the verdict in terms of the raw counts and the p95 of the samples |
| Stats.ZeroTrafficStagePasses | server/bench/_common.ts:269-285 | a stage with no operations passes whenever both thresholds are ≥ 0 |
| Stats.PassingStages | server/bench/_common.ts:292 | keeps exactly the passing stages |
| Stats.FoldMaxTarget | server/bench/_common.ts:290-293 | the fold is ≥ its start, bounds every target, and is the start or one of the targets |
| Stats.MaxSustainableRps | server/bench/_common.ts:290-293 | the result is ≥ 0 and bounds every passing target; it is 0 or the target of some passing stage |
| Stats.MaxSustainableBelow | server/bench/_common.ts:290-293 | rearranging the stages cannot raise the figure |
| Stats.MaxSustainableIgnoresOrder | server/bench/_common.ts:290-293 | the figure does not depend on the order of the stages |
| Stats.HighestPassingStageWins | server/bench/_common.ts:252-293 | of a passing 500 rps stage and a failing 2000 rps stage, the figure is 500 |
| Stats.PositiveFinite | server/bench/_common.ts:123-125 | every kept value is > 0 and one of the inputs; every finite positive input is kept; never longer than the input |
| Stats.PositiveFiniteConcat | server/bench/_common.ts:123-125 | the filter distributes over concatenation, so values keep their input order and multiplicity |
| Stats.PositiveFiniteSingle | server/bench/_common.ts:123-125 | one value is kept iff it is finite and > 0 |
| Stats.FloorAll | server/bench/_common.ts:126 | each entry is the floor of the kept value at the same position |
| Stats.ParseStageRps | server/bench/_common.ts:115-128 | unset input gives the fallback; the result is never empty for a non-empty fallback; if nothing survives the filter, the fallback; otherwise each entry is ≥ 0 and is the floor of a positive input |
| Stats.ParseStageRpsConcat | server/bench/_common.ts:121-127 | two lists that each hold a positive finite rate parse to the first's rates followed by the second's: every rate is kept, floored, in the order given |
| Stats.ParseStageRpsSingle | server/bench/_common.ts:120-127 | one positive finite rate parses to its floor; anything else gives the fallback |
| Stats.FractionalRateFloorsToZero | server/bench/_common.ts:116-128 | the input `0.5` yields the list `[0]`, because filtering happens before flooring |
| Stats.PeakFold | server/bench/_common.ts:155-165 | the peak is ≥ the start and every sample, and is one of them |
| Stats.StopSampler | server/bench/_common.ts:155-180 | start and end are their readings in megabytes; the peak, in bytes, is the largest of the start reading, every interval reading and the end reading; user and system CPU microseconds become milliseconds |
| StageRunner.NormalizeOutcome | server/bench/_common.ts:183-188 | a boolean becomes a record with that `ok` and no latency; a record is unchanged |
| StageRunner.RecordCompletion | server/bench/_common.ts:221-238 | one settlement adds one to total and to exactly one of ok and errors; it appends one latency: the operation's own `latencyMs` when present (0 included), otherwise wall-clock time; a throw is an error with wall-clock latency |
| StageRunner.Goal | server/bench/_common.ts:213-214 | the goal is floor(elapsed / 1000 × targetRps) |
| StageRunner.GoalMonotone | server/bench/_common.ts:210-214 | a later tick never lowers the goal |
| StageRunner.InitValid | server/bench/_common.ts:201-208 | the initial state satisfies the runner invariant |
| StageRunner.Tick | server/bench/_common.ts:210-214 | past the duration, the runner drains; otherwise the goal is recomputed from the new elapsed time, and launching starts iff scheduled < goal |
| StageRunner.LaunchOne | server/bench/_common.ts:216-245 | a launch happens only below the cap; it adds one fresh id to the in-flight set and one to `scheduled`; pacing resumes when the goal is reached |
| StageRunner.CompleteTask | server/bench/_common.ts:221-243 | a settlement removes that task from the in-flight set and records it with its latency since launch |
| StageRunner.FinishDrain | server/bench/_common.ts:247-249 | on return, total = scheduled = ok + errors = the number of latencies, and scheduled equals the last tick's goal |
| StageRunner.Step | server/bench/_common.ts:210-249 | every event keeps the invariant; `scheduled`, the goal and total never decrease; after a tick's launches, scheduled = floor(elapsed × rps / 1000) |
| StageRunner.Run | server/bench/_common.ts:210-249 | every trace of events keeps the invariant and the monotone schedule |
| StageRunner.RunKeepsCapAndCounters | server/bench/_common.ts:210-249 | with a positive cap, the in-flight count never exceeds it; total = ok + errors = the number of latencies; on return, total = scheduled |
| StageRunner.NoCapacityNeverLaunches | server/bench/_common.ts:217-219 | with a cap ≤ 0, once launching is due no event can happen |
| WsClient.NewClient | server/bench/ws_stress.ts:242-250 | a new client is not open, not closed, has no pending request and no current question |
| WsClient.OnOpen | server/bench/ws_stress.ts:256-260 | opening sets only `open` |
| WsClient.SendAndWait | server/bench/ws_stress.ts:191-226 | a client that is not available is refused with `{ok: false, latencyMs: 0, completion: "close"}` and left untouched; otherwise exactly this new request becomes pending |
| WsClient.SendAndWaitThrows | server/bench/ws_stress.ts:224-235 | when `send` throws, the new request settles at once as a "close" failure and pending is cleared |
| WsClient.SettlePending | server/bench/ws_stress.ts:308-315 | settling clears pending and records the result against that request only |
| WsClient.OnTimeout | server/bench/ws_stress.ts:204-214 | a timer settles its request as a "timeout" failure only while that request is still pending; otherwise nothing changes |
| WsClient.OnMessage | server/bench/ws_stress.ts:281-316 | `question` sets the current question and `quiz_complete` clears it, pending or not; only question, quiz_complete and error settle a pending request: ok iff not error, completion = the type; other replies change nothing else |
| WsClient.OnClose | server/bench/ws_stress.ts:267-280 | a close marks the client closed and not open, and settles any pending request as a "close" failure |
| WsClient.Apply | server/bench/ws_stress.ts:191-316 | every event keeps the client invariant (at most one pending request, and it is the latest one issued); a settlement is of a request not settled before, and it is recorded |
| WsClient.SettledAtMostOnce | server/bench/ws_stress.ts:191-316 | along any event sequence, each request is settled at most once and each settlement stays recorded with its value |
| WsClient.LateReplySettlesNextRequest | server/bench/ws_stress.ts:204-315 | a reply arriving after a timeout settles the next request sent on that client |
| WsClient.PickFrom | server/bench/ws_stress.ts:390-395 | a pick is an available client at one of the first 40 draws; no pick means every such draw missed |
| WsClient.PickAvailableClient | server/bench/ws_stress.ts:388-397 | an empty pool gives no client; a returned client is open, not closed and has nothing pending |
| WsClient.RouteJoin | server/bench/ws_stress.ts:399-446 | a new connection opens iff the pool is below the cap; otherwise an available client is reused, or none is found |
| WsClient.AdmitNewClient | server/bench/ws_stress.ts:417-423 | a new client joins the pool iff its join succeeded |
| WsClient.RouteAnswer | server/bench/ws_stress.ts:448-460 | the answer goes to an available client with a non-empty current question; it falls back to a join iff no client is picked or the picked one has no question |
| WsClient.ConcurrentJoinsCanOvershootCap | server/bench/ws_stress.ts:403-419 | two joins routed from the same pool, one below the cap, both open connections and leave the pool one over the cap |
| OptionChoice.ChooseOptionId | server/bench/quiz_service_stress.ts:52-57 | `<qid>_b` iff draw < 0.8; `<qid>_a` iff 0.8 ≤ draw < 0.95; "" iff draw ≥ 0.95 (the same function is at server/bench/ws_stress.ts:78-83) |
| Decimal.NatToString | server/bench/quiz_service_stress.ts:79 | `String(n)` is a non-empty digit string without a leading zero unless n = 0 |
| Decimal.NatToStringRoundTrip | server/bench/quiz_service_stress.ts:79 | the digits of `String(n)` denote n |
| Decimal.NatToStringInjective | server/bench/quiz_service_stress.ts:79 | different numbers print differently |
| Decimal.PadZeros | server/bench/quiz_service_stress.ts:79 | `padStart(width, "0")` keeps a long string and otherwise left-fills it with zeros to the width |
| Decimal.PaddedRoundTrip | server/bench/quiz_service_stress.ts:79 | zero padding does not change the value the digits denote |
| Decimal.TrimStartWhiteSpace | server/bench/quiz_service_stress.ts:47 | the trimmed text is a suffix that does not start with white space |
| Decimal.TrimDropsOnlyWhiteSpace | server/bench/quiz_service_stress.ts:47 | everything trimmed is white space |
| Decimal.DigitPrefix | server/bench/quiz_service_stress.ts:47 | the longest run of leading digits |
| Decimal.ParseInt | server/bench/quiz_service_stress.ts:47 | `parseInt` is NaN iff no digit follows the white space and optional sign |
| Decimal.ParseIntOfNatToString | server/bench/quiz_service_stress.ts:47 | `parseInt(String(n), 10)` is n |
| ServiceDriver.DropLeadingQ | server/bench/quiz_service_stress.ts:47 | `replace(/^q/, "")` drops one leading `q` and nothing else |
| ServiceDriver.ParseQuestionIndex | server/bench/quiz_service_stress.ts:46-50 | `parseQuestionIndex`; its meaning is stated by `ServiceDriver.ParseQuestionIndexOfId` (round trip with the seeded ids) and `ServiceDriver.ParseQuestionIndexWithoutDigits` (NaN reads as 0) |
| ServiceDriver.ParseQuestionIndexOfId | server/bench/quiz_service_stress.ts:46-50 | `parseQuestionIndex("q" + k)` is k − 1 for k ≥ 1 and 0 for k = 0 |
| ServiceDriver.ParseQuestionIndexWithoutDigits | server/bench/quiz_service_stress.ts:46-50 | an id whose parse is NaN reads as index 0 |
| ServiceDriver.UserNameInjective | server/bench/quiz_service_stress.ts:78-82 | different counter values give different user names |
| ServiceDriver.CreateUser | server/bench/quiz_service_stress.ts:78-82 | the counter is bumped first and names the new user, who starts at index 0 and is not complete |
| ServiceDriver.JoinUser | server/bench/quiz_service_stress.ts:84-92 | a join keeps the user name, and a user marked complete keeps its index |
| ServiceDriver.JoinUserFollowsHandleJoin | server/bench/quiz_service_stress.ts:84-92 | a join leaves the store `handleJoin` leaves; it marks the user complete iff no question came back, and otherwise sets the index from the question id |
| ServiceDriver.AfterReply | server/bench/quiz_service_stress.ts:86-91 | complete iff no question came back; otherwise the index is parsed from its id |
| ServiceDriver.AnswerUser | server/bench/quiz_service_stress.ts:94-115 | a complete user, or one at index ≥ totalQuestions, is marked complete without touching the store; otherwise `q(index+1)` is answered through `handleAnswer`, and the reply updates the user as a join does |
| ServiceDriver.AnswerUserStore | server/bench/quiz_service_stress.ts:99-108 | an answering user leaves exactly the store `handleAnswer` leaves for the chosen option; the sixth argument is dropped |
| ServiceDriver.PickFrom | server/bench/quiz_service_stress.ts:119-124 | a pick is an incomplete user at one of the first 25 draws; no pick means every such draw missed |
| ServiceDriver.PickAnswerUser | server/bench/quiz_service_stress.ts:117-126 | no users give no pick; a picked user is not complete |
| ServiceDriver.PickFindsIncompleteUser | server/bench/quiz_service_stress.ts:117-126 | a first draw that hits an incomplete user is the pick |
| ServiceDriver.AddUser | server/bench/quiz_service_stress.ts:153-155 | create, join and push: users only grow, by one user named by the next counter value |
| ServiceDriver.Operation | server/bench/quiz_service_stress.ts:150-172 | the operation always returns true and never shrinks or renames users; it joins iff the draw is below the join ratio or no user is picked; an answer adds no user |
| ServiceDriver.WarmUp | server/bench/quiz_service_stress.ts:128-136 | `count` users are created and joined in order, and the driver stays consistent |
| ServiceDriver.Start | server/bench/quiz_service_stress.ts:44-76 | no users and a zero counter over a freshly seeded database |
| ServiceDriver.StartConsistent | server/bench/quiz_service_stress.ts:44-76 | the driver's local state starts out mirroring the database |
| ServiceDriver.JoinMirrors | server/bench/quiz_service_stress.ts:84-92 | after a join, an incomplete user's index equals its progress row |
| ServiceDriver.AnswerMirrors | server/bench/quiz_service_stress.ts:94-115 | after an answer, the user still mirrors its progress row, and progress advanced by exactly one |
| ServiceDriver.AnswerKeepsOthers | server/bench/quiz_service_stress.ts:94-115 | an answer leaves every other user's progress row unchanged |
| ServiceDriver.JoinKeepsOthers | server/bench/quiz_service_stress.ts:84-92 | a join leaves every existing progress row unchanged |
| ServiceDriver.AddUserConsistent | server/bench/quiz_service_stress.ts:153-155 | adding a user keeps every user mirroring the database |
| ServiceDriver.AnswerStepConsistent | server/bench/quiz_service_stress.ts:169 | answering for one user keeps every user mirroring the database |
| ServiceDriver.OperationConsistent | server/bench/quiz_service_stress.ts:150-172 | every stage operation keeps the driver's users mirroring the database |
| QuizStore.EmptyWellFormed | server/src/db.ts:9-68 | the empty database satisfies the key and reference constraints of the schema |
| QuizStore.EnsureSession | server/src/db.ts:257-262 | insert-if-absent: the quiz id is added with the clock only when new, and nothing else changes |
| QuizStore.FindParticipant | server/src/db.ts:26 | finds the row for (quiz, user), or reports that there is none |
| QuizStore.EnsureParticipant | server/src/db.ts:264-278 | insert-if-absent with score 0 and the join time; an existing row is left as it was; the insert fails only without a session |
| QuizStore.IncrementScore | server/src/db.ts:280-298 | adds delta to that participant only and returns the new score; a missing participant changes nothing and yields 0 |
| QuizStore.InsertAnswer | server/src/db.ts:300-324 | appends exactly one answer row with is_correct 1 or 0, and fails only without a session |
| QuizStore.EnsureParticipantProgress | server/src/db.ts:134-148 | creates a row at 0 only if absent; existing rows are unchanged |
| QuizStore.GetParticipantProgress | server/src/db.ts:150-166 | the stored index, or 0 when there is no row |
| QuizStore.AdvanceParticipantProgress | server/src/db.ts:168-182 | adds 1 to an existing row and returns it; a missing row changes nothing and reads 0; other rows are unchanged |
| QuizStore.GetQuestionCount | server/src/db.ts:184-189 | the number of question rows |
| QuizStore.QuestionsInOrderMeans | server/src/db.ts:191-199 | the ordered questions are a permutation of the question rows, ascending by sort_order |
| QuizStore.GetQuestionByIndex | server/src/db.ts:191-211 | a question is found iff the offset (0 for a negative index) is below the count, and it is one of the rows |
| QuizStore.QuestionIndexFollowsSortOrder | server/src/db.ts:191-211 | a lower index never has a higher sort_order |
| QuizStore.NegativeIndexReadsFirst | server/src/db.ts:197 | a negative offset reads as offset 0 |
| QuizStore.OptionsOfMembers | server/src/db.ts:221 | the selection holds exactly the options of that question |
| QuizStore.GetOptionsForQuestion | server/src/db.ts:213-237 | one row per option of the question |
| QuizStore.GetOptionsForQuestionMeans | server/src/db.ts:213-237 | exactly the question's options, ascending by id in text order |
| QuizStore.FirstMatchCorrectUnique | server/src/db.ts:251-254 | with distinct ids, the row `get` returns is the only match |
| QuizStore.IsOptionCorrect | server/src/db.ts:239-255 | `isOptionCorrect`; its meaning is stated by `QuizStore.IsOptionCorrectMeans` |
| QuizStore.IsOptionCorrectMeans | server/src/db.ts:239-255 | true only if a row with that id belongs to that question and has is_correct = 1; with unique ids, iff |
| QuizStore.ParticipantsOfMembers | server/src/db.ts:339 | the selection holds exactly the quiz's participants |
| QuizStore.RankedMeans | server/src/db.ts:331-344 | exactly the quiz's participants, by score descending and then joined_at ascending |
| QuizStore.GetLeaderboard | server/src/db.ts:331-344 | one row per participant of the quiz; its order and contents are stated by `QuizStore.LeaderboardMeans` |
| QuizStore.LeaderboardMeans | server/src/db.ts:331-344 | scores never increase down the board; every participant of the quiz appears with its score; every row is one of them |
| QuizStore.QuestionId | server/src/db.ts:106 | `q` followed by the decimal index |
| QuizStore.QuestionIdInjective | server/src/db.ts:106 | different indexes give different question ids |
| QuizStore.OptionIdInjective | server/src/db.ts:123 | option ids determine their question and suffix |
| QuizStore.SeedQuestion | server/src/db.ts:106-114 | question i has id `q<i>` and sort_order i − 1 |
| QuizStore.SeedOptions | server/src/db.ts:115-128 | four options per question |
| QuizStore.SeedOptionsFacts | server/src/db.ts:115-128 | the options are `_a`.. `_d` of that question, only `_b` is correct; the texts are left + right for `_b`, one more for `_a`, one less for `_c` and two more for `_d` |
| QuizStore.InsertQuestionOrIgnore | server/src/db.ts:93-95 | a row whose id exists is dropped, otherwise appended; ids stay unique |
| QuizStore.InsertOptionOrIgnore | server/src/db.ts:96-103 | an option whose id exists is dropped, otherwise appended |
| QuizStore.InsertOptionsKeepsUnique | server/src/db.ts:121-128 | inserting options with ignore keeps option ids unique |
| QuizStore.InsertFreshOptions | server/src/db.ts:121-128 | options with new, distinct ids are all appended in order |
| QuizStore.SeedLoopCovers | server/src/db.ts:104-129 | after the loop, every planned question id is present |
| QuizStore.SeedLoopAppends | server/src/db.ts:105-128 | the seeding loop keeps the option rows already there, and every row it appends to either table comes from one of its iterations |
| QuizStore.SeedQuestions | server/src/db.ts:85-132 | a no-op at ≥ 100 questions; otherwise both tables keep their rows as a prefix, every appended question is `SeedQuestion(k)` and every appended option is in `SeedOptions(k)` for some 1 ≤ k ≤ 100, ids stay unique, and the other tables are left alone |
| QuizStore.SeedQuestionsCovers | server/src/db.ts:104-129 | after seeding, q1..q100 are all present |
| QuizStore.SeedKeepsWellFormed | server/src/db.ts:85-132 | seeding keeps the database well formed |
| QuizStore.SeedEmptyTables | server/src/db.ts:85-132 | seeding an empty catalogue gives exactly the 100 seeded questions and their options, in order |
| QuizStore.SeededQuestionAt | server/src/db.ts:191-211 | in the seeded catalogue, index i is question i + 1, and nothing lies past 99 |
| QuizStore.SeededOptionsOf | server/src/db.ts:213-237 | in the seeded catalogue, question k's options are its four seeded options in that order |
| QuizStore.SeedOptionsInIdOrder | server/src/db.ts:115-128 | the seeded options of a question are already in id order |
| QuizStore.SeededCorrectness | server/src/db.ts:239-255 | for a seeded question, an option is correct iff it is that question's `_b` |
| QuizStore.UnknownQuestionNeverCorrect | server/src/db.ts:239-255 | no option is correct for a question id outside the catalogue |
| QuizService.ToPayloads | server/src/quiz_service.ts:39-42 | one `{id, text}` per option row |
| QuizService.BuildQuestionPayload | server/src/quiz_service.ts:24-48 | a payload exists iff 0 ≤ index < question count |
| QuizService.PayloadMatchesStore | server/src/quiz_service.ts:35-47 | the payload is the question at that index, and its options are exactly that question's options |
| QuizService.SeededPayload | server/src/quiz_service.ts:24-48 | in the seeded catalogue, index k gives question k + 1 with its four options, and nothing outside 0..99 |
| QuizService.Enrol | server/src/quiz_service.ts:55-57 | after the three ensure calls, the session, the participant and the progress row exist; answers and the catalogue are unchanged |
| QuizService.EnrolAdds | server/src/quiz_service.ts:55-57 | only a missing participant is added, with score 0; only a missing progress row is added, at 0; existing rows and sessions are unchanged |
| QuizService.EnrolIdempotent | server/src/quiz_service.ts:55-57 | enrolling twice is enrolling once, whatever the second clock reading |
| QuizService.HandleJoin | server/src/quiz_service.ts:50-62 | `handleJoin` enrols and returns the leaderboard of the new store and the question at the participant's progress; the question is absent iff progress is past the end |
| QuizService.JoinIdempotent | server/src/quiz_service.ts:50-62 | a repeated join changes nothing and returns the same answer |
| QuizService.JoinerOnLeaderboard | server/src/quiz_service.ts:55-58 | the joining user is on the returned leaderboard |
| QuizService.FreshJoinStartsAtFirstQuestion | server/src/quiz_service.ts:50-62 | a new user of a seeded quiz gets question q1 and appears on the board with score 0 |
| QuizService.ScoreAnswer | server/src/quiz_service.ts:64 | the delta is 1 iff the answer is correct, 0 otherwise |
| QuizService.ScoredFacts | server/src/quiz_service.ts:77-83 | exactly one answer row is appended, and only the answering participant's score rises, by the delta |
| QuizService.HandleAnswer | server/src/quiz_service.ts:66-93 | correctness is the store's verdict; the leaderboard and next question are read from the new store; the catalogue is unchanged |
| QuizService.MoveOn | server/src/quiz_service.ts:84-89 | the index returned is the participant's stored progress afterwards |
| QuizService.AnswerAdvancesExactly | server/src/quiz_service.ts:84-89 | progress advances by one iff the question at the current progress is the one answered; otherwise the store is the scored one; other progress rows are unchanged |
| QuizService.AnswerKeepsWellFormed | server/src/quiz_service.ts:66-93 | answering keeps the database well formed |
| QuizService.AnswerScoreOnLeaderboard | server/src/quiz_service.ts:80-90 | the returned board shows the answerer with their old score plus the delta |
| QuizService.SeededAnswerGrade | server/src/quiz_service.ts:80 | on the seeded catalogue, an answer is correct iff it names the question's `_b` option; unknown questions are never correct |
| QuizService.SeededWalkStep | server/src/quiz_service.ts:84-91 | answering the current seeded question moves to the next one, or to none after q100 |
| QuizService.SeededNextQuestionDiffers | server/src/quiz_service.ts:84-89 | the question after q(k+1) is not q(k+1) again |
| QuizService.SeededReplayScoresWithoutAdvancing | server/src/quiz_service.ts:81-89 | a duplicate answer is recorded and graded again but does not advance progress |
| Sorting.SortSpec | server/bench/_common.ts:100 | the sort returns an ordered permutation of its input |
| Sorting.SortOfSorted | server/bench/_common.ts:100 | an ordered input is returned unchanged |
| Sorting.SortedUnique | server/bench/_common.ts:100 | under an antisymmetric order, there is only one ordered permutation |
| Server.IsJoinMessage | server/src/index.ts:118-121 | `isJoinMessage`: type "join" with string quizId and username; used through `Server.Classify`, whose partners are `Server.ClassifyRoundTrip` and `Server.ClassifyRejects` |
| Server.IsAnswerMessage | server/src/index.ts:123-128 | `isAnswerMessage`: type "answer" with string quizId, username, questionId and optionId; used through `Server.Classify` |
| Server.Classify | server/src/index.ts:118-128 | a message is accepted iff it is a join or an answer shape, and read as a join iff it is a join shape |
| Server.ClassifyRoundTrip | server/src/index.ts:118-128 | each message a client sends is read back as itself, whatever extra members it carries |
| Server.ClassifyRejects | server/src/index.ts:118-128 | non-objects, answers missing a string questionId or optionId, and other types are rejected |
| Server.GetSessionSockets | server/src/index.ts:38-46 | returns the quiz's set, or stores and returns a new empty one |
| Server.Attach | server/src/index.ts:48-49 | the socket is in the quiz's set, earlier members stay, and other sessions are unchanged; no session set is empty or holds a socket twice |
| Server.Remove | server/src/index.ts:60 | deleting never grows a set |
| Server.RemoveMeans | server/src/index.ts:60 | deleting removes exactly that socket and keeps the set duplicate-free |
| Server.RemoveAppended | server/src/index.ts:60 | deleting an added socket restores the set |
| Server.DetachAsWritten | server/src/index.ts:51-64 | as written: a falsy bound quiz id (never joined, or "") skips the detach |
| Server.Detach | server/src/index.ts:51-64 | corrected `detachFromSession` (the corrected half of the finding below): only a connection that never joined is skipped; its meaning is stated by `Server.DetachMeans` |
| Server.DetachMeans | server/src/index.ts:51-64 | corrected handler: a connection that never joined changes nothing; otherwise the socket leaves its quiz's set, an emptied set is deleted, and other sessions are unchanged. As written, a binding to "" is not detached (`Server.DetachAsWritten`) |
| Server.AttachThenDetach | server/src/index.ts:48-64 | detaching a socket that was attached restores the registry, for every quiz id including "" |
| Server.EmptyQuizIdLeaksSocket | server/src/index.ts:51-55 | as written, a socket that joined quiz "" stays in the registry after it closes |
| Server.Start | server/src/index.ts:24-26 | the server starts with a seeded database, no sessions and no connections |
| Server.Open | server/src/index.ts:192 | a new connection starts with no quiz id and no user name |
| Server.Broadcast | server/src/index.ts:79-94 | one update per socket of the session, in set order; none when there is no session |
| Server.HandleClientMessage | server/src/index.ts:130-185 | the handler throws exactly when the parsed value is `null` |
| Server.OnMessage | server/src/index.ts:201-209 | unparseable text, and a handler that throws, give one `parse_error` to the sender and change nothing |
| Server.OnClose | server/src/index.ts:210-213 | corrected close handler, using `Server.Detach`: closing only touches the registry |
| Server.OnCloseAsWritten | server/src/index.ts:210-213 | as written, closing only touches the registry |
| Server.JoinSends | server/src/index.ts:134-156 | a join binds the connection and attaches the socket, then sends `joined` to the sender, `leaderboard_update` to every socket of the session (sender included) and the question or `quiz_complete` to the sender, in that order |
| Server.JoinStep | server/src/index.ts:134-155 | the join branch; its sends and state are stated by `Server.JoinSends` and `Server.RejoinKeepsOldSession` |
| Server.AnswerStep | server/src/index.ts:158-182 | the answer branch; stated by `Server.AnswerOtherQuizRefused` and `Server.AnswerAccepted` |
| Server.AnswerOtherQuizRefused | server/src/index.ts:158-162 | an answer for a quiz other than the connection's (truthy) bound quiz gets only `quiz_mismatch`, and the service is not called |
| Server.AnswerAccepted | server/src/index.ts:158-182 | an answer on a connection that never joined, or for its own quiz, runs `handleAnswer`, broadcasts the board and sends the next question or `quiz_complete` |
| Server.OtherShapeRejected | server/src/index.ts:184 | any other shape gets `invalid_message` and changes nothing |
| Server.RejoinKeepsOldSession | server/src/index.ts:134-137 | rejoining another quiz rebinds the connection and adds the socket to the new session, and leaves it in the old one |
| Server.HandlersKeepRegistry | server/src/index.ts:130-213 | message and close handlers keep every session set non-empty and duplicate-free |
| Server.JoinThenCloseLeavesSession | server/src/index.ts:130-213 | corrected close handler: closing after a join removes the socket from its quiz and leaves other sessions as they were, for every quiz id |
| Server.JoinThenCloseAsWrittenLeavesSession | server/src/index.ts:130-213 | the close handler as written: the same holds for every non-empty quiz id (for "" it fails, `Server.EmptyQuizIdLeaksSocket`) |

## Left out

- I/O and process plumbing are outside the model: WebSocket construction, `Bun.serve`, `logEvent`, console and file output, temporary paths, server start and stop, and `closeClient`.
- `closeClient` replaces `socket.onclose` (server/bench/ws_stress.ts:324), so on that path `open` and `closed` are never updated. This is noted, not modelled.
- JSON text and its encoding are not modelled. `Server.OnMessage` receives the parse result, or none for text that does not parse. `WsClient.OnMessage` receives a reply that is already classified.
- `Server.Classify`: `Member` looks only at the object's own fields. Inherited properties such as `constructor` are not modelled.
- Real time and scheduling are not modelled:
  - `performance.now`, `Date`, `setTimeout`, `sleep(2)`, `Promise.race`/`Promise.all` and `setInterval` become clock arguments and events that the environment orders;
  - the warm-up delays are dropped;
  - each server handler runs as one atomic step.
- `Math.random` draws are parameters. The picks are stated over an arbitrary sequence of draws.
- Stats.PercentileIndex: the quantile ceiling uses exact integer arithmetic, (n·pct + 99) / 100. `Math.ceil(n*0.95)` on binary floats may differ from this for some n.
- Stats.SummarizeLatency: `toFixed(2)` rounding is the identity. So are the `toFixed(4)` rounding of the error rate and `toMb`'s rounding in `Stats.StopSampler`.
- Stats.ParseStageRps: the environment variable is taken as already split and passed through `Number()`. `parseNumberEnv` and `parseThresholds` read the environment and are not modelled.
- Stats.StopSampler: `process.memoryUsage` and `cpuUsage` readings are parameters, and `toMb` and `toFixed(2)` rounding are the identity. The peak fold and the unit conversions are modelled.
- The ws stress driver's `timeouts`, `protocolErrors`, `joinOps` and `reuseJoinOps` counters are not modelled. Neither are the in-process driver's `joinOps` and `answerOps`. They only feed the stage notes.
- `onerror` and the open timeout in `createClient` are not modelled. They reject the creation promise, and after that no client record exists.
- SQLite itself is not modelled: the schema, PRAGMAs and the seeding transaction are replaced by the abstract store. A foreign-key failure is `None` in `QuizStore.EnsureParticipant`, `QuizStore.InsertAnswer` and `QuizStore.EnsureParticipantProgress`. The service always ensures the session first, so it never hits one.
- Database errors thrown from `handleJoin`/`handleAnswer` (disk, locking) are not modelled. The server's `parse_error` path is modelled only for `null` messages, which is the one throw the model can produce.
- ServiceDriver.AnswerUser: the sixth argument the driver passes to `handleAnswer` (server/bench/quiz_service_stress.ts:107) is dropped, because the five-parameter signature ignores it. `now` is a separate clock argument.
- `server/src/models.ts` and `server/tests/quiz_service.test.ts` are not part of this model. They describe older message shapes and an older service signature than index.ts and quiz_service.ts.
- `Number.parseInt` is modelled for decimal digits only. Precision loss on very long digit runs is not modelled.
- QuizStore.Ranked: SQLite leaves the order of participants with equal score and equal `joined_at` unspecified, and same-millisecond joins are common under load. The model picks row-id (insertion) order for them; no claim is made about the order SQLite returns.
- `Server.AnswerStep` keeps the source's truthiness test. A connection bound to quiz "" can therefore answer for any quiz without `quiz_mismatch`. This matches the code and is left as is.

## Findings

| source | as written | input that shows it | evidently intended | confidence | as-written member | corrected member |
|---|---|---|---|---|---|---|
| server/src/index.ts:51-55 | `detachFromSession` returns early when the bound quiz id is falsy, and `""` is falsy | a connection sends `{"type":"join","quizId":"","username":"u"}` and then closes | every attached socket is removed on close, including one attached under quiz id `""` (the join branch attaches it, since `""` passes `isJoinMessage`) | not executed | Server.EmptyQuizIdLeaksSocket | Server.AttachThenDetach |
