# Verified models of the gateway plugins

The plugins decide, for every request to a model server, which instance gets it, whether it is
refused, and how streamed answers are read. This project states what five of those mechanisms
guarantee and proves it, for every input, every run and every interleaving.

`dafny verify dfyconfig.toml` checks everything.

## What is modelled

**Concurrency cap and passive health** (`extensions/gpustack-lb`). The finisher reserves a slot
under an instance's cap before it routes, and releases it when the stream ends.

- `InflightList`, `InflightProtocol`, `InflightCap`: the shared-data protocol as a transition
  system. Each GetSharedData and SetSharedData is one step, any number of workers take steps in
  any order. The cap is hard on a key that exists. On a key that is just being created it can be
  overrun, by exactly how much is proved from both sides.
- `InflightWorker`: the reserve and release loops as they run in a worker while others interfere;
  every run of them is a schedule of the system. `RetryBudgets`: how many lost rounds they survive.
- `InflightStores`, `StoreEquivalence`: the list of start times and the redis sorted set give the
  same answers to every sequence of reservations, releases and reads.
- `Health`, `HealthStores`, `HealthForgetting`: the failure count and the ejection windows as a
  function of the history, the redis hash that expires against the record that does not, and
  exactly when that difference shows.

**The decision pipeline** (`extensions/gpustack-lb`, `-lb-session-affinity`, `-lb-least-load`).

- `Wire`, `StringOrder`, `CandidateOrder`, `CandidateConfig`: candidates, their keys, which
  configurations are accepted, the published order, and what publishing keeps of all that.
- `ModelNames`: which mapping entry names the model for a target.
- `CandidateFilter`, `Publication`, `LeastLoad`: ejection, recovery penalty, fail-open, what is
  published in terms of the stored timestamps, load scores.
- `HashInput`, `Affinity`, `Stickiness`: the bytes under the hash, the rendezvous ranking and what
  survives of it in the vote.
- `Voting`, `Dice`: the weighted vote, the weighted dice, the round-robin cursor.
- `ReserveWalk`, `Finisher`, `Pipeline`: the order in which targets are tried, where a request
  ends up, and the way from an accepted configuration to a slot.

**Tool-call pairing** (`ToolCallPairing`, `PairingRules`): the one-pass checker against a grammar of
conversations, and which rule a rejection names.

**Local rate limiter** (`Bytes`, `RateLimit`, `RateLimitBatch`, `RateLimitRuns`, `RateLimitWorkers`,
`RateLimitKey`): the byte-encoded log, its pruning, the check and write passes one at a time, against
the history of what was recorded, and concurrently.

**AWS event stream** (`EventStream`, `EventStreamChunks`, `EventTypes`): the incremental frame decoder,
and which events come out of the frames that were sent.

**Server-sent events** (`SseEvents`, `SseFragments`, `SseBlocks`): splitting and rebuilding event
blocks, putting a fragmented event together again, and both in terms of the bytes of a block.

## Assumptions

- Times and counters are unbounded integers except where a 64-bit or 32-bit type is named; sums
  and differences of timestamps are taken not to overflow. Scores are real numbers.
- The host's cas is never 0 for a key that exists, is never reused, and on in-flight and health
  keys a SetSharedData call fails only by a mismatch. Windows, caps and quotas are constant while
  a run lasts.
- Redis expires keys by its own clock; it is taken to show the `now` that the caller passes.
- A worker's clock never runs ahead of a global clock that does not run backwards; it may lag.
- FNV and the mixing of hashes, CRC32, JSON decoding and "is valid JSON" are uninterpreted.
  Random choices (ties, shuffles) and host failures are arbitrary.
- `Interfere` stands for everything other workers do between two host calls of one worker. Its
  body does nothing, its contract allows any run of the protocol. Where the constant `alone` is
  set, the contracts also say what happens undisturbed.

Where code and comments disagree, the model follows the code.

- `extensions/gpustack-lb/state.go:178-185` says that the window on a brand-new key "can only
  *under*-count (never double-admit on its own)". The lost entry does free its slot for another
  request: `InflightCap.BrandNewBoundIsReached` is an interleaving in which every worker fills the
  whole cap, and `InflightCap.BrandNewCapExactlyWhen` shows that any second worker is enough.
- `extensions/gpustack-lb/redis_store.go:60-64` says that expiry forgets failures "that were never
  going to add up to an ejection". They are failures in a row: `HealthForgetting.SilenceForgets`
  gives reports that eject on shared data and not on redis, and
  `HealthForgetting.VerdictsAlikeExactlyWhen` says for which windows there are such reports.
- `extensions/gpustack-lb/selector.go:12-29` calls the round-robin even. Across the wrap of the
  cursor a round is even only if the candidates divide 2^64 (`Dice.EvenRoundExactlyWhen`).
- `extensions/gpustack-lb/state.go:239-242` takes a zero start time for "nothing reserved", so the
  two stores part at instant 0 (`StoreEquivalence.ZeroStartIsNotReleased`);
  `StoreEquivalence.AlikeExactlyWhen` shows that this is the only difference.

## Model

| member | source | states |
|---|---|---|
| InflightList.PruneStarts | extensions/gpustack-lb/state.go:273-281 | the in-place filter leaves exactly the entries that have not aged out, in order |
| InflightList.RemoveStart | extensions/gpustack-lb/state.go:252-258 | one entry equal to the token goes, and it reports whether there was one |
| InflightList.RemovePruneCount | extensions/gpustack-lb/state.go:250-265 | a release takes one copy of a live token out of the list and leaves every other live count as it was |
| InflightProtocol.StepKeeps | extensions/gpustack-lb/state.go:187-270 | every step of every worker keeps the invariant: list within the cap, pending writes computed from the current list, live tokens covered |
| InflightProtocol.RunKeeps | extensions/gpustack-lb/state.go:187-270 | so does every schedule |
| InflightProtocol.AppendCovers | extensions/gpustack-lb/state.go:205-213 | an accepted append covers the new holder and loses nobody |
| InflightProtocol.RemovalCovers | extensions/gpustack-lb/state.go:239-270 | an accepted release leaves every other holder covered, same-millisecond tokens included |
| InflightCap.HardCap | extensions/gpustack-lb/state.go:176-218 | on an existing key, in every interleaving, every live token is stored with full multiplicity, the list never outgrows maxRun, and at most maxRun requests hold a live slot |
| InflightCap.BrandNewBound | extensions/gpustack-lb/state.go:178-203 | from an absent key, W workers hold at most maxRun times W live slots, all covered by the list and the erased entries |
| InflightCap.OnlyEarlyReadersErase | extensions/gpustack-lb/state.go:178-203 | once the key exists, only a worker that had already read "not found" can still write the empty state |
| InflightCap.BrandNewBoundIsReached | extensions/gpustack-lb/state.go:187-218 | from any absent key, whatever the clock shows, some interleaving reaches maxRun times W live holders |
| InflightCap.BrandNewCapExactlyWhen | extensions/gpustack-lb/state.go:163-218 | the cap is hard on a brand-new key if and only if at most one worker shares it |
| InflightWorker.SharedKey.LoadInflight | extensions/gpustack-lb/state.go:367-380 | an absent key reads as the empty list with cas 0 |
| InflightWorker.SharedKey.Store | extensions/gpustack-lb/state.go:400-414 | a write fails only on a mismatch, and cas 0 overwrites |
| InflightWorker.SharedKey.ReserveInflight | extensions/gpustack-lb/state.go:187-218 | whatever the others do, the loop ends in an outcome of the protocol; alone, it prunes, checks the cap and appends |
| InflightWorker.SharedKey.RemoveInflight | extensions/gpustack-lb/state.go:239-270 | likewise for the release loop; alone, exactly one entry equal to the token is gone |
| RetryBudgets.ReserveRounds | extensions/gpustack-lb/state.go:163-218 | a reservation goes on after nine lost rounds and fails open after the tenth |
| RetryBudgets.ReleaseRounds | extensions/gpustack-lb/state.go:239-270 | a release goes on after nineteen and is abandoned after the twentieth |
| RetryBudgets.AppendRounds | extensions/gpustack-rate-limit/backend.go:248-275 | an admission's append goes on after nine and fails after the tenth |
| InflightStores.SharedDataStore.Reserve | extensions/gpustack-lb/state.go:50-61 | the walk reserves the first target with room; a host error ends it with the fail-open result and no entry changed |
| InflightStores.SharedDataStore.Release | extensions/gpustack-lb/state.go:63-66 | release by start time; token 0 releases nothing |
| InflightStores.RedisStore.EvalReserveRound | extensions/gpustack-lb/redis_store.go:213-221 | one round of the script: drop leaked members, count, add and refresh the TTL |
| InflightStores.RedisStore.EvalReserve | extensions/gpustack-lb/redis_store.go:211-223 | the whole script picks the first key below its cap |
| InflightStores.RedisStore.EvalRelease | extensions/gpustack-lb/redis_store.go:284-289 | the in-flight part of the done script |
| StoreEquivalence.InflightTTLCovers | extensions/gpustack-lb/redis_store.go:466-475 | the TTL outlives the leak horizon for every window, integer division included |
| StoreEquivalence.InflightTTLIs | extensions/gpustack-lb/redis_store.go:466-475 | a minute, or twice the leak horizon in whole seconds if that is longer |
| StoreEquivalence.ExpiredIsDead | extensions/gpustack-lb/redis_store.go:211-223 | a sorted set never expires while it holds a live entry |
| StoreEquivalence.ReserveAgrees | extensions/gpustack-lb/store.go:122-142 | related stores make the same choice at every target and stay related |
| StoreEquivalence.ReleaseAgrees | extensions/gpustack-lb/store.go:144-148 | removing one equal start and removing one's own member amount to the same |
| StoreEquivalence.RunsAgree | extensions/gpustack-lb/store.go:107-149 | every legal sequence of operations leaves both stores with the same live entries |
| StoreEquivalence.StoresAnswerAlike | extensions/gpustack-lb/store.go:107-149 | same pick for every reservation, same live count for every read, over every legal sequence |
| StoreEquivalence.ZeroStartIsNotReleased | extensions/gpustack-lb/state.go:239-242 | at instant 0 shared data keeps an entry that redis releases |
| StoreEquivalence.AlikeExactlyWhen | extensions/gpustack-lb/store.go:107-149 | the stores are equivalent if and only if the clock starts after instant 0 |
| Health.FailsIsRunLength | extensions/gpustack-lb/state.go:294-350 | the count is the number of failures since the last success or ejection and stays below the threshold |
| Health.EjectsExactly | extensions/gpustack-lb/finisher.go:252-271 | a failure ejects exactly when it completes a full run, or on the first failure of a probation request |
| Health.StampsOfLastEjection | extensions/gpustack-lb/state.go:326-350 | the deadlines are those of the last ejection, so the ejection ends no later than the ramp |
| Health.HealthKey.RecordSuccess | extensions/gpustack-lb/state.go:294-308 | the report becomes the last of the history, or the host fails or exactly ten rounds were lost; nothing recorded is lost once the key exists and nobody holds a read from before |
| Health.HealthKey.RecordFailure | extensions/gpustack-lb/state.go:326-350 | the failure is applied to the record as it stood when the write went through, or, on the first write to a missing key, replaces it; a settled record loses nothing; given up only on a host error or after ten lost rounds |
| HealthStores.HealthTTLCovers | extensions/gpustack-lb/redis_store.go:477-486 | the TTL outlives cooldown plus ramp |
| HealthStores.HealthTTLIs | extensions/gpustack-lb/redis_store.go:477-486 | an hour, or twice cooldown plus ramp in whole seconds if that is longer |
| HealthStores.VerdictsAgree | extensions/gpustack-lb/redis_store.go:284-304 | both stores publish the same verdict at every moment, up to a forgotten failure count |
| HealthStores.AgreeExactlyUnlessForgot | extensions/gpustack-lb/redis_store.go:284-304 | over a whole run the records agree in full if and only if no failure count was forgotten while it was positive |
| HealthStores.ExpiryKeepsVerdict | extensions/gpustack-lb/redis_store.go:477-486 | expiry never ends an ejection or a ramp early |
| HealthForgetting.RecordsAgree | extensions/gpustack-lb/redis_store.go:284-304 | reports less than the lifetime of the hash apart, or any with a threshold of 1, give the same verdict at every moment, and the same count until that lifetime after the last |
| HealthForgetting.SilenceForgets | extensions/gpustack-lb/redis_store.go:60-64 | where the condition fails: failures in a row, less than d apart, that eject on shared data and not on redis |
| HealthForgetting.VerdictsAlikeExactlyWhen | extensions/gpustack-lb/redis_store.go:477-486 | for reports less than d apart the stores always publish the same verdicts if and only if d is at most the TTL, or the threshold is 1, or cooldown and ramp are both 0 |
| HealthForgetting.CountsAlikeExactlyWhen | extensions/gpustack-lb/redis_store.go:477-486 | and always the same counts if and only if d is at most the TTL or the threshold is 1 |
| HealthForgetting.AlikeForAnHour | extensions/gpustack-lb/redis_store.go:60-64 | with cooldown plus ramp positive and below half an hour the same verdicts always come out if and only if reports are less than an hour apart, or the threshold is 1 |
| Wire.KeyInjective | extensions/gpustack-lb/wire/wire.go:99-153 | the key identifies cluster and target as long as no cluster name holds a NUL |
| Wire.AcceptKeys | extensions/gpustack-lb/config.go:754-769 | the duplicate check accepts exactly lists with distinct keys |
| CandidateConfig.AcceptCandidates | extensions/gpustack-lb/config.go:738-788 | accepts exactly lists with non-negative weights whose sum fits and distinct keys, and leaves them sorted and still acceptable |
| CandidateConfig.AcceptedAnyOrder | extensions/gpustack-lb/config.go:738-769 | acceptance and the total weight do not depend on how the candidates are listed |
| CandidateConfig.PublishedAccepted | extensions/gpustack-lb/context.go:143-233 | whatever is published from an accepted configuration has distinct keys and weights whose sum fits |
| ModelNames.ResolveCandidateModel | extensions/gpustack-lb/config.go:861-886 | exact entry, else the first matching prefix pattern in byte order, else the catch-all, else no name, however the map is iterated |
| ModelNames.OneName | extensions/gpustack-lb/config.go:849-886 | a mapping group and a model leave one answer |
| ModelNames.NamedBy | extensions/gpustack-lb/config.go:861-886 | the name is that of the model's own entry, else of the text-and-star entry the model starts with that sorts first, else of the star, else empty, as without a group |
| ModelNames.AppliesExactlyWhen | extensions/gpustack-lb/config.go:874-881 | a pattern applies exactly when it is a non-empty text and a star and the model starts with the text |
| ModelNames.ShorterFirstExactlyWhen | extensions/gpustack-lb/config.go:855-860 | of two prefix patterns that match, the shorter decides if and only if the model's next character is not below the star |
| ModelNames.ShortestPrefixDecides | extensions/gpustack-lb/config.go:855-860 | in a group of any size, for model names without such characters, the shortest matching prefix decides |
| CandidateOrder.SortCandidates | extensions/gpustack-lb/config.go:771-788 | the candidates are put in ascending order of cluster and target, none lost |
| CandidateOrder.ListingDoesNotMatter | extensions/gpustack-lb/config.go:771-788 | however they are listed, the same candidates are published in the same order |
| CandidateOrder.ClusterThenTarget | extensions/gpustack-lb/config.go:783-788 | cluster names never fall along the list, and within one cluster the targets ascend |
| StringOrder.FirstDifference | extensions/gpustack-lb/config.go:783-788 | of two strings the first byte that differs decides, the lower first |
| CandidateFilter.BuildCandidateSet | extensions/gpustack-lb/context.go:143-233 | the loops publish what Published says: model name, load, penalty and probation of each, ejected ones out |
| Publication.PublishedExactly | extensions/gpustack-lb/context.go:143-233 | on the stored timestamps: exactly the candidates whose ejection is over, or all if none is and failing open is on, in configured order, each with the load stored under its own key, its model name, and the penalty of the part of the ramp that is left |
| Publication.MaxLoadIsBusiest | extensions/gpustack-lb/context.go:188-199 | the load behind the penalty is the highest of those not cooling down |
| Publication.NobodyPublished | extensions/gpustack-lb/context.go:211-232 | the published list is empty exactly when nobody is configured, or all are cooling down and failing open is off |
| CandidateFilter.PublishedFrom | extensions/gpustack-lb/context.go:211-232 | an ejected candidate is published only if all are ejected and failing open is on |
| CandidateFilter.PublishedHas | extensions/gpustack-lb/context.go:211-232 | nobody who is not ejected is left out, and on failing open nobody at all |
| CandidateFilter.PenaltyFallsLinearly | extensions/gpustack-lb/context.go:178-209 | for fixed loads the penalty falls linearly from the highest load plus one to zero |
| LeastLoad.LoadScores | extensions/gpustack-lb-least-load/score.go:58-64 | the score map over all candidates |
| LeastLoad.LeastLoadWins | extensions/gpustack-lb-least-load/score.go:58-74 | as the only opinion, the highest total has the minimum effective load |
| LeastLoad.FewestWins | extensions/gpustack-lb-least-load/score.go:58-74 | that is the fewest requests plus penalty, in numbers |
| LeastLoad.ScoreInNumbers | extensions/gpustack-lb-least-load/score.go:66-74 | the score times one plus requests plus penalty is 1 |
| LeastLoad.JustReleasedIsLast | extensions/gpustack-lb/context.go:179-209 | a just-released instance has a higher effective load than every published one without a penalty |
| LeastLoad.JustReleasedIsNotPicked | extensions/gpustack-lb/context.go:143-233 | so, from any accepted configuration, least-load does not pick it while a healthy candidate is published |
| HashInput.InputInjective | extensions/gpustack-lb-session-affinity/affinity.go:168-184 | no two pairs of session key and candidate key feed the hash the same bytes |
| HashInput.DelimiterAmbiguousExactlyWhen | extensions/gpustack-lb-session-affinity/affinity.go:170-177 | behind a delimiter, a longer session key could read like the same bytes if and only if the candidate key holds a NUL |
| Affinity.AffinityScores | extensions/gpustack-lb-session-affinity/affinity.go:123-154 | an empty session key abstains, otherwise sort and decay |
| Affinity.SortedRanked | extensions/gpustack-lb-session-affinity/affinity.go:136-145 | the sort orders by hash, ties by key |
| Affinity.ScoreByRank | extensions/gpustack-lb-session-affinity/affinity.go:91-154 | a candidate's score is one half to the power of its rank, whatever the input order |
| Stickiness.ScoresByHash | extensions/gpustack-lb-session-affinity/affinity.go:123-154 | in falling order of the hashes, ties by key, the candidates have the scores 1, 1/2, 1/4 and so on |
| Stickiness.ListingDoesNotMatter | extensions/gpustack-lb-session-affinity/affinity.go:123-154 | two listings of the same candidates get the same scores |
| Stickiness.RelativeOrderKept | extensions/gpustack-lb-session-affinity/affinity.go:156-164 | removing any candidate keeps the relative order of all others |
| Stickiness.OwnerIsAhead | extensions/gpustack-lb-session-affinity/affinity.go:136-145 | the owner is the candidate with the highest hash, on a tie the one with the lower key |
| Stickiness.OwnerVote | extensions/gpustack-lb-session-affinity/affinity.go:91-113 | after normalisation the owner leads every rival by more than a quarter of the published weight |
| Stickiness.OwnerWins | extensions/gpustack-lb/selector.go:194-274 | if the published weights of the other opinions that score a candidate add up to at most a quarter of affinity's, the winner is the session's owner, for all candidate sets and all their scores |
| Stickiness.OnlyOwnedSessionsMove | extensions/gpustack-lb-session-affinity/affinity.go:156-164 | with affinity alone, a removal moves only the sessions of the removed candidate, to their second choice |
| Voting.CombineRanks | extensions/gpustack-lb/selector.go:194-233 | the nested loops compute the normalised weighted totals and whether anybody contributed |
| Voting.BestTotal | extensions/gpustack-lb/selector.go:252-274 | the result has the maximum total, whatever the draws among ties |
| Voting.VotesConserved | extensions/gpustack-lb/selector.go:143-157 | all totals add up to the published weights of the opinions that score a candidate, a weight of zero or less counting as 1 |
| Voting.OneVote | extensions/gpustack-lb/selector.go:221-231 | an opinion with a positive score gives its published weight in all, 1 when that is zero or less, and nothing otherwise |
| Voting.VotesInProportion | extensions/gpustack-lb/selector.go:207-231 | within an opinion the candidates share in proportion to their scores; without a positive score nothing |
| Voting.HeavierVotes | extensions/gpustack-lb/selector.go:221-231 | multiplying a positive weight multiplies the opinion's part of every total |
| Voting.ContributedExactlyWhen | extensions/gpustack-lb/selector.go:207-233 | there is a vote exactly when some opinion has a positive score for a live candidate |
| Voting.ScaleDoesNotMatter | extensions/gpustack-lb/selector.go:151-157 | scaling one opinion by a positive constant changes no total |
| Voting.OrderDoesNotMatter | extensions/gpustack-lb/wire/wire.go:34-35 | the order of the opinions changes no total |
| Dice.SumWeights | extensions/gpustack-lb/selector.go:101-124 | the 64-bit sum is exact or reported as not fitting, and never wraps |
| Dice.SelectWeighted | extensions/gpustack-lb/selector.go:97-141 | the pick owns the point; the fallback behind the loop is unreachable |
| Dice.ExactSplit | extensions/gpustack-lb/selector.go:80-96 | each candidate owns exactly as many points as its weight, one of zero or less none |
| Dice.OneOwner | extensions/gpustack-lb/selector.go:126-137 | no point has two owners |
| Dice.InOrder | extensions/gpustack-lb/selector.go:80-96 | the points of an earlier candidate all lie before those of a later one |
| Dice.EveryPointOwned | extensions/gpustack-lb/selector.go:126-141 | every point below the total has an owner |
| Dice.AcceptWeights | extensions/gpustack-lb/config.go:738-748 | accepted weights are non-negative and their sum fits, and all such are accepted |
| Dice.Cursor.RoundRobin | extensions/gpustack-lb/selector.go:276-286 | nobody without candidates; otherwise the candidate at the cursor, which advances and wraps at 64 bits |
| Dice.Cursor.OneRound | extensions/gpustack-lb/selector.go:276-286 | what a round of n requests picks from any cursor, the wrap included |
| Dice.EvenRoundExactlyWhen | extensions/gpustack-lb/selector.go:12-29 | a round gives each candidate exactly one request if and only if the cursor does not wrap on the way or the candidates divide its range |
| ReserveWalk.SortByTotal | extensions/gpustack-lb/finisher.go:117-121 | shuffled positions end up in descending order of totals, still a permutation |
| ReserveWalk.WalkKeys | extensions/gpustack-lb/finisher.go:122-131 | the first position of every key, in order |
| ReserveWalk.ReserveOrder | extensions/gpustack-lb/finisher.go:105-132 | weighted: the winner only; otherwise everybody, the winner first, the rest by descending total or in published order |
| ReserveWalk.FullWalkIsPermutation | extensions/gpustack-lb/finisher.go:94-132 | with distinct keys the walk is a permutation of the candidates |
| ReserveWalk.FirstWithRoom | extensions/gpustack-lb/store.go:122-133 | the store stops at the first target with room and adds one entry there |
| ReserveWalk.RoutedIsBestWithRoom | extensions/gpustack-lb/finisher.go:83-160 | refused exactly when all are full; otherwise routed to a candidate with room that no other candidate with room outscores |
| ReserveWalk.RoomExactlyWhen | extensions/gpustack-lb/state.go:205-213 | room means a cap of zero or less, or fewer entries that have not aged out than the cap |
| Finisher.Selector.SelectCandidate | extensions/gpustack-lb/selector.go:50-58 | weights roll the dice and silence the opinions; votes decide otherwise; round-robin without votes |
| Finisher.SelectedIsOwner | extensions/gpustack-lb/selector.go:167-182 | what is selected is the session's owner when affinity dominates |
| Finisher.SelectedHasLeastLoad | extensions/gpustack-lb/selector.go:167-182 | and the least loaded one when least-load is alone |
| Finisher.Route | extensions/gpustack-lb/finisher.go:73-160 | to the best candidate with room; without votes to the one in turn, else the first published with room; on a weighted set to the dice's pick or nowhere; refused exactly when those are full; without a slot only on a host error, and then to the preferred one |
| Finisher.SettledBy | extensions/gpustack-lb/finisher.go:73-160 | read off what is published: one weight on any candidate and the point's owner gets the request; else with a positive score for anybody the best with room; else the one in turn or the first with room |
| Finisher.RefusedBy | extensions/gpustack-lb/finisher.go:94-150 | a refusal means that everybody is full, on a weighted set that the owner of the point is |
| Pipeline.Serve | extensions/gpustack-lb/finisher.go:51-95 | from an accepted configuration: no answer exactly when nobody may be published; a routed request has its slot at a candidate whose ejection is over unless all are cooling down, and that owns the request's point whenever the weights add up to anything |
| ToolCallPairing.JoinPending | extensions/gpustack-ai-proxy/tool_call_pairing.go:230-245 | the pending ids in the order in which they were issued |
| ToolCallPairing.ValidateToolCallPairing | extensions/gpustack-ai-proxy/tool_call_pairing.go:100-208 | the loop with its three sets and order list gives the verdict of the step-by-step check |
| ToolCallPairing.CheckDecidesConversation | extensions/gpustack-ai-proxy/tool_call_pairing.go:100-208 | accepted exactly when the request derives from the grammar: plain messages and turns whose calls are each answered once, right behind, with request-wide distinct non-empty ids |
| ToolCallPairing.RejectionIsEarliest | extensions/gpustack-ai-proxy/tool_call_pairing.go:100-208 | the prefix before the offending message can be completed, the one through it cannot |
| ToolCallPairing.RejectionNamesOpenCalls | extensions/gpustack-ai-proxy/tool_call_pairing.go:186-206 | an unanswered-call rejection names exactly the calls still open |
| PairingRules.RejectionNamesRule | extensions/gpustack-ai-proxy/tool_call_pairing.go:100-208 | from the messages alone: which of the six rules the rejection names and with which ids; open calls in the order of issue |
| ToolCallPairing.RequestWideUniquenessIsFree | extensions/gpustack-ai-proxy/tool_call_pairing.go:92-96 | checking ids only within each array accepts the same requests |
| RateLimit.LogRoundTrip | extensions/gpustack-rate-limit/backend.go:277-298 | decoding inverts encoding on all 64-bit pairs |
| RateLimit.BytesRoundTrip | extensions/gpustack-rate-limit/backend.go:277-298 | encoding inverts decoding up to the last whole entry |
| RateLimit.LocalWindowTotal | extensions/gpustack-rate-limit/backend.go:227-244 | the raw loop sums the decoded entries newer than the cutoff |
| RateLimit.DecodeEntries | extensions/gpustack-rate-limit/backend.go:288-298 | the decoding loop, trailing bytes dropped |
| RateLimit.EncodeEntries | extensions/gpustack-rate-limit/backend.go:277-286 | the encoding loop |
| RateLimit.PruneInPlace | extensions/gpustack-rate-limit/backend.go:256-262 | filtering into the slice being read keeps exactly the recent entries |
| RateLimit.NewValue | extensions/gpustack-rate-limit/backend.go:255-264 | the bytes written are the encoding of the pruned and extended log |
| RateLimit.PrunedLogRefinesFullLog | extensions/gpustack-rate-limit/backend.go:246-275 | pruning at every append changes no total read later |
| RateLimit.NothingStale | extensions/gpustack-rate-limit/backend.go:256-264 | after an append the log holds the new entry and every earlier one of its window, and no other |
| Bytes.NumberOfEight | extensions/gpustack-rate-limit/backend.go:277-298 | eight bytes are one number, the most significant first, the sign in the first bit |
| RateLimitBatch.LocalBackend.BatchEval | extensions/gpustack-rate-limit/backend.go:158-203 | a readable entry over quota is reported and nothing written, otherwise the adds the host takes are written; a failed read lets its entry pass |
| RateLimitRuns.ServeAll | extensions/gpustack-rate-limit/backend.go:158-203 | over any run, any modes and any counts: a batch passes only if no entry that asks for room and could be read has its window used up in the recorded history, and is refused for the first that has |
| RateLimitRuns.HistoryDecides | extensions/gpustack-rate-limit/backend.go:158-203 | the same for every run of batches, host errors included |
| RateLimitRuns.AddsAlwaysPass | extensions/gpustack-rate-limit/backend.go:160-179 | a batch of adds alone is never refused |
| RateLimitRuns.TokenBudget | extensions/gpustack-rate-limit/main.go:533-566 | after a passed check the tokens in every later window are fewer than the quota plus what was reported since |
| RateLimitBatch.LogIsStored | extensions/gpustack-rate-limit/backend.go:180-190 | the stored log is the pruned history of admissions |
| RateLimitBatch.SequentialBound | extensions/gpustack-rate-limit/backend.go:158-203 | one request at a time: no window (t - W, t], past or present, holds more than Quota admissions |
| RateLimitWorkers.StepKeeps | extensions/gpustack-rate-limit/backend.go:158-275 | every check, load, write and failure keeps the live total plus requests in flight below quota plus workers plus requests let through unchecked |
| RateLimitWorkers.ConcurrentBound | extensions/gpustack-rate-limit/backend.go:156-157 | in every interleaving the stored total, and on an existing key the live admissions, stay at or below Quota + N - 1, plus one for each check that the host failed |
| RateLimitWorkers.BoundIsReached | extensions/gpustack-rate-limit/backend.go:156-157 | from any idle key with room left, absent or with any log, some interleaving reaches that number |
| RateLimitWorkers.QuotaKeptExactlyWhen | extensions/gpustack-rate-limit/backend.go:156-157 | from any such key the quota itself is kept in every interleaving if and only if one worker serves the key |
| RateLimitKey.SharedWindow.CheckQuota | extensions/gpustack-rate-limit/backend.go:160-179 | the check pass on one key: refused exactly when the log could be read and the window is full |
| RateLimitKey.SharedWindow.AddEntry | extensions/gpustack-rate-limit/backend.go:248-275 | success means this admission was appended to the log as it stood; it fails on a host error or after the last retry |
| EventStream.DecodeHeaderName | extensions/gpustack-ai-proxy/provider/bedrock.go:594-609 | a name of the stated length, or which end of input was met |
| EventStream.DecodeHeaderValue | extensions/gpustack-ai-proxy/provider/bedrock.go:497-515 | a string value, or none for other types |
| EventStream.DecodeHeaders | extensions/gpustack-ai-proxy/provider/bedrock.go:473-495 | the loop reads the whole section; a repeated name keeps its last value |
| EventStream.ValidateCRC | extensions/gpustack-ai-proxy/provider/bedrock.go:695-706 | the next four bytes are the expected checksum |
| EventStream.DecodePrelude | extensions/gpustack-ai-proxy/provider/bedrock.go:657-683 | lengths and their checksum, zero length refused |
| EventStream.DecodePayload | extensions/gpustack-ai-proxy/provider/bedrock.go:633-638 | the payload bytes, 32-bit wrap-around of the length included |
| EventStream.DecodeMessage | extensions/gpustack-ai-proxy/provider/bedrock.go:440-471 | one frame from the front of the bytes, and how many bytes it took |
| EventStream.DecodeEvents | extensions/gpustack-ai-proxy/provider/bedrock.go:355-403 | the loop decodes every complete frame and stops at the first that is not; it fails exactly when a decoded frame's event type is no string |
| EventStream.StreamContext.Extract | extensions/gpustack-ai-proxy/provider/bedrock.go:355-393 | events of the buffered bytes plus the chunk, the undecoded suffix is buffered; or that failure, and the buffer stays |
| EventStreamChunks.DecodeMonotone | extensions/gpustack-ai-proxy/provider/bedrock.go:440-471 | a frame that decodes still decodes the same with more bytes behind it |
| EventStreamChunks.ChunksDoNotMatter | extensions/gpustack-ai-proxy/provider/bedrock.go:355-393 | for any bytes, cut anywhere, the events are those of one call on the whole and the buffer is its undecoded suffix |
| EventStreamChunks.ExtractAll | extensions/gpustack-ai-proxy/provider/bedrock.go:355-403 | the calls one after the other, cut anywhere, fail exactly when some complete frame of the whole has such an event type, and otherwise give those events and that buffer |
| EventStreamChunks.FrameDecodes | extensions/gpustack-ai-proxy/provider/bedrock.go:440-495 | decoding inverts encoding of one frame |
| EventStreamChunks.PartialDoesNotDecode | extensions/gpustack-ai-proxy/provider/bedrock.go:440-471 | a frame that has not arrived completely does not decode |
| EventStreamChunks.ReceivesWhatWasSent | extensions/gpustack-ai-proxy/provider/bedrock.go:355-393 | any frames sent, cut anywhere, are read without failure and are the events received, and a trailing partial frame is the buffer |
| EventTypes.ReceiveFrames | extensions/gpustack-ai-proxy/provider/bedrock.go:355-403 | any frames sent, cut anywhere: one event for every payload that is one, a block stop exactly where the last field named :event-type is the string contentBlockStop; it fails exactly when that field of such a frame is no string |
| EventTypes.DecodesExactlyWhen | extensions/gpustack-ai-proxy/provider/bedrock.go:440-471 | bytes are a frame exactly when the total is not zero, both checksums match and the headers can be read |
| EventTypes.NameBreaksOff | extensions/gpustack-ai-proxy/provider/bedrock.go:473-495 | a section that ends behind a length byte ends there, one that ends inside a name is malformed |
| EventTypes.ValueBreaksOff | extensions/gpustack-ai-proxy/provider/bedrock.go:497-552 | and so is one without a type or with a string shorter than it says |
| SseEvents.SplitSSEEvent | extensions/gpustack-token-usage/main.go:1134-1152 | prefix lines and joined data lines, or verbatim without data |
| SseBlocks.SplitsInto | extensions/gpustack-token-usage/main.go:1134-1152 | a block of plain lines, blank lines and data lines, with or without the optional space, splits into the plain lines and the values, joined in order; without data it stays as it is |
| SseBlocks.EveryBlock | extensions/gpustack-token-usage/main.go:1134-1152 | every block is made of such lines |
| SseEvents.ReassembleSSEEvent | extensions/gpustack-token-usage/main.go:1162-1182 | one data line for each line of the payload behind the prefix |
| SseEvents.PrintParse | extensions/gpustack-token-usage/main.go:1154-1182 | any payload behind any plain prefix splits into the same two again |
| SseEvents.SplitRoundTrip | extensions/gpustack-token-usage/main.go:1126-1182 | splitting the reassembly of a split block gives the same parts, for every block with data |
| SseFragments.MergeSSEEventState | extensions/gpustack-token-usage/main.go:1680-1694 | emit or hold, as the payload is complete or not |
| SseBlocks.HeldExactlyWhen | extensions/gpustack-token-usage/main.go:1680-1694 | a block that fits is held exactly when it has data that is not JSON, not blank and not the terminator |
| SseBlocks.CompletedExactlyWhen | extensions/gpustack-token-usage/main.go:1632-1684 | behind a fragment both go out exactly when together they are JSON or outgrow the cap |
| SseFragments.Context.MergeLargeUsageChunks | extensions/gpustack-token-usage/main.go:1632-1661 | emitted plus held is what was held plus what came; the buffer never exceeds the cap |
| SseFragments.NothingIsLost | extensions/gpustack-token-usage/main.go:1632-1694 | the same over any run, overflow included |
| SseFragments.FragmentsBecomeOneEvent | extensions/gpustack-token-usage/main.go:1620-1631 | an event in pieces that fits the buffer comes out whole, once, with its last piece |

## Left out

- Overflow of 64-bit sums and of timestamp arithmetic, except in the weight sums, the round-robin cursor, the byte encodings and the 32-bit payload length.
- InflightWorker.SharedKey.Store: host writes that fail for another reason than a mismatch, which `storeJSON` reports as success, are taken not to happen; a slot granted through one is not in the list, and no cap could hold for it.
- InflightCap.HardCap: counts granted slots; a reservation given up on a host error or after the last retry is routed without one.
- RateLimitWorkers.ConcurrentBound: an absent key's first write can erase entries, so from an absent key only what is stored is bounded, not the admissions.
- JSON forms of the stored records, the key prefixes, the redis connection, its reply decoders, timeouts and pauses: plumbing around the modelled steps.
- Interleavings of several redis scripts: redis runs each script as one step, so their order is the sequence of operations.
- Changes of configuration while a key is in use, and entries for one key with different windows.
- The Lua rate-limit script, calendar windows and quotas, and batches with one key twice.
- RateLimitKey.SharedWindow.AddEntry: keeps the log decoded between host calls; the byte form of the same step is RateLimit.NewValue.
- RateLimitBatch.LocalBackend.BatchEval: writes without interference; the retry loop is RateLimitKey.SharedWindow.AddEntry.
- ReserveWalk.SortByTotal: the library's stable sort is an insertion sort here; stability is not stated because the order before it is a shuffle.
- Affinity.SortedRanked: the library's sort is an insertion function on values, not in place.
- Finisher.Route: takes the store undisturbed; what happens under interference is InflightCap.HardCap and InflightWorker.
- Pipeline.Serve: takes the ranks and the loaded states as given, whatever they are; the scoring plugins between publishing and selecting are the modules above.
- ToolCallPairing.JoinPending: gives the ids themselves; their quoting and joining into one text for the log are not modelled.
- Statistics: evenness of hashes, fairness of tie draws and shuffles, the bias of hash modulo total.
- Rounding of floating-point scores and penalties.
- Parsing of the configuration text, the model mappings of routes without load balancing, body rewriting, header handling, local replies, metrics, and the other plugins and providers.
