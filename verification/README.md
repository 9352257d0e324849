# Verified model of the temporal pattern learner and the console's stateful services

The repository learns temporal patterns from event streams (`packages/temporal`) and serves them from a console API
(`apps/console-api`). This project models its most intricate logic in Dafny and proves what that logic is for.

**Temporal pattern learner.** Events are sorted by timestamp, order index and id. Before every outcome event a look-back
window is cut out. A bounded depth-first *miner* lists the signature sequences ("episodes") of the windows of a target
outcome; a greedy *matcher* looks for the same sequences in the windows of all other outcomes; the *scorer* turns both
counts into rates, lifts and scores. A reported rate means something only if miner and matcher recognise the same thing.
The model therefore defines *embedding* (a strictly index-increasing choice of sorted events within the span and gap
limits) on its own, and proves that the miner computes exactly the embeddings, that the matcher finds exactly the greedy
ones for all limits, that these are all of them exactly when the gap limit cannot bind, that reported counts never
exceed the true ones, and that uncapped rates are then the true fractions over the raw events. Every number of a
hypothesis is stated from its counts, its supporting windows and the raw events, and which hypotheses are reported as an
equivalence. *Uncapped* means that no window has more minable keys than the candidate cap, which is exactly when the cap
loses nothing, and certain when a window has few enough events. Mining keeps the lexicographically least choice of each
key, even when the cap cuts it short; from this follow prefix closure, the longest lead time, anti-monotone support and
monotone deltas.

**Cycle stream pump.** A queue and a waker between a running cycle and a single consumer, as a state machine over its
atomic pieces of code, with all interleavings: no lost wakeup, first-in-first-out delivery, complete delivery on return.

**Knowledge-graph view.** A level-by-level search over an undirected multigraph with an early exit: the response is
exactly the ball of the given radius and the edges touching the ball one smaller.

**Simulation runs.** The `sim_run` table under any interleaving of create, claim, guarded status update and abort, with
the update first as one atomic step and then as the two statements it consists of.

**Runtime configuration.** Defaults overlaid with stored texts, deep merge of JSON fields, partial updates: what a patch
writes and refuses, and when it reads back.

**Nearest-neighbour fill.** The exact conditions on the neighbours under which a missing field is filled, and with what.

**Autonomy loop.** Its interleavings, its spend ledger and caps: when it stops, that it runs on otherwise, and how much
it can spend.

Code that updates state is modelled as classes and loops, each proved against a specification function or a logical
characterisation; the laws are lemmas about those. Module names follow the components: `TemporalEvents`,
`OrderQualityRules`, `EpisodeChoices` (what an episode is), `CandidateCap`, `EpisodeMiner`, `NegativeEvidence`,
`OutcomeWindows`, `CandidateTally`, `EvidenceCollection`, `SupportTheorems`, `PatternRates`, `ScoreArithmetic`,
`PatternScorer`, `HypothesisTheorems`, `HypothesisValues`, `ReportedValues`, `GapCondition`, `PatternLearner`,
`PatternEdges`, `StableJoin`, `CycleStreamPump`, `KgView`, `SimRunLifecycle`, `SplitStatusUpdate`, `JsonMerge`,
`RuntimeConfig`, `FaithfulCodec`, `KnnPropagation`, `KnnVerdicts`, `SpendLedger`, `Autonomy`, `CapStops`,
`RollingSpend`; `Collections` and `RealArithmetic` hold generic facts.

## Findings

Four expectations a reader might have are false of the code. Each has a witness and an exact condition.

- The matcher misses embeddings when `max_gap_ms` is positive and shorter than what else limits an episode: for A@0,
  B@0, B@g, C@g+1 with gap g it commits to the first B. On event lists of any extent it is complete for all sequences if
  and only if the gap is unset, not positive, or at least the span limit (`NegativeEvidence.MatcherCompleteExactly`).
  The learner counts negatives only for what it mined, in windows where no two events are a whole window apart. All
  counts it takes are the true ones, for all events, if and only if the gap is unset, not positive, or at least the
  smaller of the span limit and the window less one millisecond, or `max_steps` or the candidate cap is at most two
  (`GapCondition.NegativesExactIff`). The witness puts the sample before another outcome, and A, B, C at one time before
  a target outcome.
- The status update of a run reads and checks in one statement and writes in another. With other steps in between, no
  fish is ever handed out twice if and only if no request asks for the pending status
  (`SplitStatusUpdate.SingleClaimsIff`), and finished fish keep their status if and only if requests ask for nothing but
  failed (`SplitStatusUpdate.FinishedIsFinalIff`). The request schema admits all statuses.
- A configuration update is not always read back: `RuntimeConfig.UpdateRoundTrip` gives the exact condition, field by
  field. An empty string reads back only where it is the default, and a JSON value only if it keeps the keys of the
  default objects it meets. `RuntimeConfig.UpdateReadsBack` states it in terms of what is stored and what is sent.
  `FaithfulCodec.ClearedStringReturns` and `FaithfulCodec.ReplacedObjectReturns` are updates that do not read back, and
  `FaithfulCodec.FaithfulExists` shows that number and JSON texts can be as the condition assumes.
- The autonomy timer can be armed while the loop is stopped. It is armed exactly while the loop runs, in every reachable
  state, if and only if all intervals that starts ask for and that configurations carry come to the same one
  (`Autonomy.StoppedIsUnarmedIff`). A stopped loop begins no tick in any case (`Autonomy.StoppedLoopWindsDown`).

The comment on `countFishByStatus` speaks of five statuses; the code has six, and so has the model.

## Model

| member | source | states |
|---|---|---|
| `TemporalEvents.SortStableSorted` | packages/temporal/src/episode-windows.ts:12-19 | the stable sort yields a permutation of the events, sorted by timestamp, order index and id |
| `TemporalEvents.SortStableOrder` | packages/temporal/src/episode-windows.ts:12-19 | of two events in the sorted list the first has the smaller timestamp, among equal ones the smaller order index, zero when absent, and among these the smaller id |
| `TemporalEvents.StringLeqMeaning` | packages/temporal/src/episode-windows.ts:17 | ids are compared at the first character in which they differ |
| `TemporalEvents.SignatureIdentifies` | packages/temporal/src/event-signature.ts:29-36 | signatures of events whose fields are free of the separator agree exactly when type, source and action agree |
| `TemporalEvents.SortStablePermutation` | packages/temporal/src/episode-windows.ts:12-19 | with distinct ids the sorted list does not depend on the input order |
| `TemporalEvents.OrderedPreEventsPermutation` | packages/temporal/src/temporal-episode-miner.ts:27-29 | the list of events mined and matched does not depend on the input order |
| `OrderQualityRules.QualityIsWorstWarranted` | packages/temporal/src/episode-windows.ts:67-111 | the order quality of a group is the worst one that a label, a place or a tie of its events warrants; an own label precedes one in the metadata, and ties may be between any two events although the code compares sorted neighbours only |
| `OrderQualityRules.QualityWorsensWithMore` | packages/temporal/src/episode-windows.ts:67-93 | adding events never improves the quality |
| `OrderQualityRules.QualityPermutation` | packages/temporal/src/episode-windows.ts:67-93 | the quality does not depend on the order of the events |
| `OrderQualityRules.MergeIsJoin` | packages/temporal/src/stdp-like-scorer.ts:438-449 | merging qualities is the least upper bound of the ranks |
| `EpisodeChoices.AllChoicesExact` | packages/temporal/src/temporal-episode-miner.ts:37-92 | the unpruned enumeration holds exactly the admissible choices of at most `max_steps` events |
| `EpisodeChoices.NothingAfterBreak` | packages/temporal/src/temporal-episode-miner.ts:82-83 | once an index is too late for the span or the gap no later index admits anything: the two breaks lose nothing |
| `EpisodeChoices.MinedChoicesExact` | packages/temporal/src/temporal-episode-miner.ts:37-109 | the mined choices are admissible, have distinct keys, come in lexicographic order, number at most the cap, and account for every admissible choice |
| `EpisodeChoices.MinedCharacterization` | packages/temporal/src/temporal-episode-miner.ts:37-109 | these properties determine the result: nothing else satisfies them |
| `EpisodeChoices.MinedComplete` | packages/temporal/src/temporal-episode-miner.ts:37-109 | a result shorter than the cap holds the key of every admissible choice |
| `EpisodeChoices.MinedIsLeast` | packages/temporal/src/temporal-episode-miner.ts:55-109 | each kept choice is the lexicographically least with its key, even under the cap |
| `EpisodeChoices.MinedLeadIsLongest` | packages/temporal/src/stdp-like-scorer.ts:299 | a kept choice starts no later than any other choice with its key |
| `EpisodeChoices.MinedPrefixClosed` | packages/temporal/src/temporal-episode-miner.ts:55-109 | the mined keys are closed under non-empty prefixes, even under the cap |
| `EpisodeMiner.EpisodeSearch.AddEpisode` | packages/temporal/src/temporal-episode-miner.ts:94-109 | records the current episode exactly when its key is new |
| `EpisodeMiner.EpisodeSearch.ExtendEpisode` | packages/temporal/src/temporal-episode-miner.ts:55-92 | with both breaks and the cap collects what the unpruned subtree holds, and restores `current` |
| `EpisodeMiner.EpisodeSearch.Descend` | packages/temporal/src/temporal-episode-miner.ts:84-90 | push, recursive call and pop collect the child's subtree and restore `current` |
| `EpisodeMiner.MineOrderedEpisodes` | packages/temporal/src/temporal-episode-miner.ts:22-53 | rejects bad options with the first failing check, otherwise returns the episodes of exactly the mined choices |
| `EpisodeMiner.FirstCheckDecides` | packages/temporal/src/temporal-episode-miner.ts:111-125 | options are refused with the error of the first failing check, and only if one fails |
| `NegativeEvidence.ContainsOrderedEpisode` | packages/temporal/src/negative-evidence.ts:10-44 | the nested loops decide the greedy matching relation on the sorted pre-events: some choice within the limits takes the first occurrence of every further signature |
| `NegativeEvidence.MatchesIff` | packages/temporal/src/negative-evidence.ts:22-41 | for all limits, a sequence matches a chronological list if and only if some admissible choice spells it and takes the first occurrence of every further signature |
| `NegativeEvidence.MatcherSound` | packages/temporal/src/negative-evidence.ts:22-41 | whatever the limits, a reported match is an embedding |
| `NegativeEvidence.MatcherComplete` | packages/temporal/src/negative-evidence.ts:22-41 | with a non-binding gap, or for at most two signatures, matching and embedding coincide |
| `NegativeEvidence.MatcherCompleteExactly` | packages/temporal/src/negative-evidence.ts:34-38 | over all event lists with distinct ids and all sequences, the matcher finds every embedding if and only if the gap is unset, not positive, or at least the span limit |
| `NegativeEvidence.MatcherCompleteInWindow` | packages/temporal/src/negative-evidence.ts:22-41 | within a window it does as soon as the gap reaches across the span limit or the window |
| `NegativeEvidence.MinedExactlyEmbedded` | packages/temporal/src/temporal-episode-miner.ts:22-109 | uncapped, the miner reports exactly the sequences of at most `max_steps` signatures that embed |
| `NegativeEvidence.MinerMatcherAgree` | packages/temporal/src/negative-evidence.ts:10-44 | with a non-binding gap and an uncapped search the matcher accepts a sequence exactly when the miner reports it |
| `OutcomeWindows.BuildOutcomeWindows` | packages/temporal/src/episode-windows.ts:25-46 | one window per target outcome in sorted order, holding the sorted events before it within the window length |
| `OutcomeWindows.TargetWindowsInOrder` | packages/temporal/src/episode-windows.ts:25-46 | the i-th window belongs to the i-th target outcome in sorted order and holds the sorted events before it |
| `OutcomeWindows.EvidenceInWindow` | packages/temporal/src/episode-windows.ts:35-41 | the evidence of an outcome is exactly the events that are no outcome, have another id and lie strictly before it within the window length |
| `OutcomeWindows.CountTargetWindows` | packages/temporal/src/episode-windows.ts:25-46 | counting target windows by any property of their evidence counts target outcomes of the raw events |
| `OutcomeWindows.CountOtherWindows` | packages/temporal/src/stdp-like-scorer.ts:360-380 | the same for the windows of the other outcomes, which are cut from unsorted events |
| `OutcomeWindows.WindowFamiliesPartition` | packages/temporal/src/stdp-like-scorer.ts:111-132 | the two window families partition all comparable outcomes, whatever is counted |
| `OutcomeWindows.OtherWindowsPermutation` | packages/temporal/src/stdp-like-scorer.ts:360-380 | no count over the unsorted windows sees the input order |
| `CandidateTally.AddEpisodeEvidence` | packages/temporal/src/stdp-like-scorer.ts:290-305 | one episode contributes its outcome, events, trace weight, deltas, lead time, quality and proxy flag |
| `CandidateTally.AddWindow` | packages/temporal/src/stdp-like-scorer.ts:267-307 | after one window the map holds the tally of every key, with keys in insertion order |
| `CandidateTally.NewKeysFollow` | packages/temporal/src/stdp-like-scorer.ts:267-306 | a window adds its new keys behind those listed, in the order of its episodes |
| `EvidenceCollection.MinePositiveWindow` | packages/temporal/src/stdp-like-scorer.ts:268-274 | sorting a window again before mining changes nothing |
| `EvidenceCollection.CollectPositiveCandidates` | packages/temporal/src/stdp-like-scorer.ts:253-313 | the candidate map holds exactly the tallies over all target windows |
| `EvidenceCollection.CountNegatives` | packages/temporal/src/stdp-like-scorer.ts:331-346 | counts the other windows the matcher accepts and collects the ids of their events |
| `EvidenceCollection.CollectNegativeSupport` | packages/temporal/src/stdp-like-scorer.ts:315-358 | every candidate gets its negative support, and no other key does |
| `EvidenceCollection.AddSignatures` | packages/temporal/src/stdp-like-scorer.ts:387-400 | each signature of a window is counted once, on one side |
| `EvidenceCollection.CollectComponentEvidence` | packages/temporal/src/stdp-like-scorer.ts:382-413 | the component counts are the numbers of windows of either family the signature occurs in |
| `SupportTheorems.TallySummarizes` | packages/temporal/src/stdp-like-scorer.ts:267-307 | support windows, lead times and deltas of a tally are the set, list and sums over the windows that support the key |
| `SupportTheorems.RoundedMeanNearest` | packages/temporal/src/stdp-like-scorer.ts:234-239 | average deltas are rounded to the nearest integer, halves upwards |
| `SupportTheorems.AverageDeltasMonotone` | packages/temporal/src/stdp-like-scorer.ts:234-239 | average deltas never grow along the sequence and lie between zero and the window length |
| `SupportTheorems.LeadTimesSum` | packages/temporal/src/stdp-like-scorer.ts:295-299 | the lead times add up to the delta sum of the first step |
| `SupportTheorems.TallyQualityIsWorst` | packages/temporal/src/stdp-like-scorer.ts:300-303 | a candidate's quality is the worst over its supporting windows |
| `SupportTheorems.TallyExamples` | packages/temporal/src/stdp-like-scorer.ts:292-297 | the example ids are those of the events the supporting windows chose |
| `SupportTheorems.TallyProxyExact` | packages/temporal/src/stdp-like-scorer.ts:288-305 | the proxy flag says exactly whether the sequence contains a target proxy |
| `SupportTheorems.TallyWeightBounds` | packages/temporal/src/stdp-like-scorer.ts:291-298 | the temporal weight lies between zero and the number of supporting windows |
| `PatternRates.RecordedLeadIsLongest` | packages/temporal/src/stdp-like-scorer.ts:269-299 | the lead time recorded for a window is the longest any choice with the same key gives |
| `PatternRates.SupportersAreEmbeddings` | packages/temporal/src/stdp-like-scorer.ts:253-313 | uncapped, a sequence is supported by exactly the windows it embeds in |
| `PatternRates.SupportersEmbed` | packages/temporal/src/stdp-like-scorer.ts:253-313 | even under the cap a sequence is supported by no more windows than it embeds in |
| `PatternRates.NegativesAreEmbeddings` | packages/temporal/src/stdp-like-scorer.ts:315-358 | negatives are never overcounted, and exact when the gap cannot bind in a window or the sequence is short |
| `PatternRates.RateMeaning` | packages/temporal/src/stdp-like-scorer.ts:111-161 | support and negative count never exceed the numbers of target and other outcomes of the raw events preceded by an embedding; the first is equal uncapped, the second when the gap cannot bind |
| `PatternRates.FewEventsUncapped` | packages/temporal/src/temporal-episode-miner.ts:33-109 | the cap, 5000 unless set, loses nothing in a list of windows that have few enough events each |
| `CandidateCap.NothingLostIff` | packages/temporal/src/temporal-episode-miner.ts:94-109 | the key of every admissible choice is mined if and only if there are at most as many keys as the cap |
| `CandidateCap.FewEventsLoseNothing` | packages/temporal/src/temporal-episode-miner.ts:37-109 | that is so when the choices of at most `max_steps` out of n events, whatever they are, number at most the cap |
| `GapCondition.NegativesExactIff` | packages/temporal/src/stdp-like-scorer.ts:315-358 | over all events with distinct ids, every negative count the learner takes for a mined key is the true one if and only if the gap is unset, not positive, or at least the smaller of span limit and window less one, or `max_steps` or the cap is at most two |
| `GapCondition.HarmfulIsInexact` | packages/temporal/src/stdp-like-scorer.ts:331-346 | where the condition fails, concrete events with a target outcome from which a key is mined whose negative count is wrong |
| `GapCondition.MinedKeyLength` | packages/temporal/src/temporal-episode-miner.ts:94-109 | a mined key has at most `max_steps` signatures, and at most two under a cap of two |
| `PatternRates.SupportAntiMonotone` | packages/temporal/src/stdp-like-scorer.ts:267-307 | a sequence has at most the support of each of its prefixes, even under the cap |
| `PatternRates.SupportBelowComponents` | packages/temporal/src/stdp-like-scorer.ts:382-393 | a sequence has at most the positive count of each of its signatures |
| `PatternRates.NegativesAntiMonotone` | packages/temporal/src/stdp-like-scorer.ts:331-346 | the same on the negative side, whatever the limits |
| `PatternRates.SingletonCounts` | packages/temporal/src/stdp-like-scorer.ts:382-413 | uncapped, a single signature has exactly the counts of its component |
| `ScoreArithmetic.ScoreInUnit` | packages/temporal/src/stdp-like-scorer.ts:475-495 | every score component and the pattern score lie in the unit interval after rounding |
| `ScoreArithmetic.RoundScoreNearest` | packages/temporal/src/stdp-like-scorer.ts:540-542 | rounding yields the nearest multiple of one millionth, halves away from zero |
| `ScoreArithmetic.NearestMillionthUnique` | packages/temporal/src/stdp-like-scorer.ts:540-542 | no other number is nearest in this sense |
| `ScoreArithmetic.ScoreAntitone` | packages/temporal/src/stdp-like-scorer.ts:159-182 | more negative evidence alone never raises the score, through rate, lift and penalty together |
| `ScoreArithmetic.BaselineInUnit` | packages/temporal/src/stdp-like-scorer.ts:127 | the baseline rate lies in (0, 1] |
| `PatternScorer.LeadTimeStatsOrdered` | packages/temporal/src/stdp-like-scorer.ts:451-473 | the average is the rounded mean and the median is at most the 95th percentile |
| `PatternScorer.BestComponentIsBest` | packages/temporal/src/stdp-like-scorer.ts:423-436 | the best component is a counted signature of the sequence and comes first among these by rate, positive windows and name |
| `PatternScorer.MaterializeHypotheses` | packages/temporal/src/stdp-like-scorer.ts:153-250 | reports the hypothesis of every candidate that passes both thresholds, in map order |
| `PatternScorer.LearnForOutcome` | packages/temporal/src/stdp-like-scorer.ts:103-251 | learning one outcome returns the specified hypotheses of the raw events |
| `HypothesisTheorems.ReportedRateIsTrue` | packages/temporal/src/stdp-like-scorer.ts:158-160 | reported counts never exceed the true ones; uncapped, and when the gap cannot bind in a window, every reported rate is the rounded true fraction |
| `HypothesisTheorems.ReportedDeltas` | packages/temporal/src/stdp-like-scorer.ts:223-239 | reported deltas are non-increasing within the window, the average lead time is the first delta, and p50 is at most p95 |
| `HypothesisTheorems.ReportedScores` | packages/temporal/src/stdp-like-scorer.ts:169-182 | all scores and rates of a reported hypothesis lie in the unit interval |
| `HypothesisTheorems.SingletonHasNoLift` | packages/temporal/src/stdp-like-scorer.ts:162-167 | uncapped, a single-signature hypothesis has lift zero over its best component, which is itself |
| `HypothesisTheorems.QualifyingIsReported` | packages/temporal/src/stdp-like-scorer.ts:184-203 | uncapped, every sequence preceding a target outcome is tallied, and reported when it passes both thresholds |
| `HypothesisValues.TallyWeight` | packages/temporal/src/stdp-like-scorer.ts:290-298 | the accumulated weight is the sum over the supporters of the mean trace of the events they chose |
| `HypothesisValues.BuiltRates` | packages/temporal/src/stdp-like-scorer.ts:157-161 | rate, baseline and lift are the rounded fractions of the counts and of the numbers of outcomes |
| `HypothesisValues.ComponentValues` | packages/temporal/src/stdp-like-scorer.ts:475-495 | each score factor has its stated value: weight and lift capped at one, support one from the minimum on, penalty equal to the rate, stability one; the score is their rounded product |
| `HypothesisValues.StatsValues` | packages/temporal/src/stdp-like-scorer.ts:451-473 | the statistics of a list are its rounded mean and its values at the two ranks in ascending order |
| `HypothesisValues.MeasuresOfSummary` | packages/temporal/src/stdp-like-scorer.ts:153-239 | all numbers of a candidate follow from its supporters and the two counts of outcomes |
| `ReportedValues.SupportersMeaning` | packages/temporal/src/stdp-like-scorer.ts:267-306 | the supporters of a sequence are different target outcomes, each with the events of the lexicographically least choice in its window that spells the sequence |
| `ReportedValues.NegativesMeaningExactly` | packages/temporal/src/stdp-like-scorer.ts:331-341 | for all limits, the negative count is the number of other outcomes of the raw events whose window holds the sequence by first occurrences |
| `ReportedValues.CounterexamplesMeaning` | packages/temporal/src/stdp-like-scorer.ts:342-344 | the counterexample ids are those of the events in these windows |
| `ReportedValues.BestFromEvents` | packages/temporal/src/stdp-like-scorer.ts:162-167 | the best component is the signature that comes first by its rate over the raw outcomes, their number and its name, and the reported difference is to that rate |
| `ReportedValues.TallyQualityOf` | packages/temporal/src/stdp-like-scorer.ts:300-303 | the quality is warranted by the events of some supporter and no supporter warrants a worse one |
| `ReportedValues.ReportedAreTrue` | packages/temporal/src/stdp-like-scorer.ts:103-251 | every reported hypothesis carries these values, read off the raw events, and passes both thresholds |
| `ReportedValues.ReportedExactly` | packages/temporal/src/stdp-like-scorer.ts:184-203 | for every sequence with supporters there is one hypothesis with these values, and it is reported if and only if it passes both thresholds |
| `HypothesisTheorems.LearnedPermutation` | packages/temporal/src/stdp-like-scorer.ts:103-251 | with distinct ids, permuted events give the same hypotheses of one outcome in the same order |
| `PatternLearner.CheckedIsValid` | packages/temporal/src/stdp-like-scorer.ts:513-534 | the ordered parameter checks let exactly the valid parameters with a non-blank version through |
| `PatternLearner.FirstCheckDecides` | packages/temporal/src/stdp-like-scorer.ts:513-534 | the error is that of the first failing check |
| `PatternLearner.DomainsMeaning` | packages/temporal/src/stdp-like-scorer.ts:61-63 | the domains are the requested one, or all of the events but the mixed one in ascending order |
| `PatternLearner.DomainEventsMeaning` | packages/temporal/src/stdp-like-scorer.ts:497-507 | a domain learns from all its events, production from all but the seeded ones |
| `PatternLearner.SeededAreIgnored` | packages/temporal/src/stdp-like-scorer.ts:497-507 | leaving out seeded production events changes no learned pattern of any domain |
| `PatternLearner.DomainsPermutation` | packages/temporal/src/stdp-like-scorer.ts:61-63 | the sorted distinct domains do not depend on the input order |
| `PatternLearner.LearnDomain` | packages/temporal/src/stdp-like-scorer.ts:75-93 | one domain's events are learned for every target outcome, and the results appended |
| `PatternLearner.LearnTemporalPatterns` | packages/temporal/src/stdp-like-scorer.ts:57-101 | the first failing check, or the learned patterns of all domains and outcomes in final order |
| `PatternLearner.PatternsPermutation` | packages/temporal/src/stdp-like-scorer.ts:57-101 | with distinct ids, permuted events give the same final list of patterns |
| `PatternLearner.PatternsExact` | packages/temporal/src/stdp-like-scorer.ts:57-101 | the final list is ordered by falling score, then hash, and holds exactly what the domains learn for the target outcomes |
| `PatternEdges.InsertEdges` | apps/console-api/src/repositories/temporal-pattern.repository.ts:181-200 | one row per pair of neighbouring steps, none for fewer than two steps |
| `PatternEdges.EdgeDeltasTelescope` | apps/console-api/src/repositories/temporal-pattern.repository.ts:188-199 | on non-increasing deltas nothing is clamped and the edge deltas add up to first minus last |
| `PatternEdges.ReportedEdges` | apps/console-api/src/repositories/temporal-pattern.repository.ts:188-199 | this holds for every hypothesis the learner reports, whose edges join neighbouring signatures with its score and support |
| `StableJoin.DecodeStableJoin` | packages/temporal/src/event-signature.ts:65-67 | a decoder recovers every list of strings from its length-prefixed join |
| `StableJoin.CanonicalIdPreimageInjective` | packages/temporal/src/event-signature.ts:49-67 | two source identities share a hash preimage only when they are equal |
| `CycleStreamPump.ReachableInvariant` | apps/console-api/src/services/cycle-stream-pump.service.ts:16-74 | every interleaving keeps the protocol invariant |
| `CycleStreamPump.NoLostWakeup` | apps/console-api/src/services/cycle-stream-pump.service.ts:61-70 | a parked generator has an installed waiter, an empty queue and an unsettled run, and a push or the settling wakes it |
| `CycleStreamPump.FifoRefinement` | apps/console-api/src/services/cycle-stream-pump.service.ts:34-69 | delivered steps followed by queued ones are the pushed ones, in order |
| `CycleStreamPump.PushedIsEmitted` | apps/console-api/src/services/cycle-stream-pump.service.ts:28-42 | the recorded pushes are the steps emitted by the cycle, in action order |
| `CycleStreamPump.ReturnIsComplete` | apps/console-api/src/services/cycle-stream-pump.service.ts:61-73 | on return the run has settled with exactly one outcome and every step emitted before was delivered once and in order |
| `CycleStreamPump.OutcomeIsStable` | apps/console-api/src/services/cycle-stream-pump.service.ts:44-59 | a stored outcome never changes |
| `CycleStreamPump.SettledRunDrains` | apps/console-api/src/services/cycle-stream-pump.service.ts:61-73 | after the run settled the generator delivers the whole queue and returns in a computed number of steps |
| `CycleStreamPump.QueuedStepIsNext` | apps/console-api/src/services/cycle-stream-pump.service.ts:62-65 | while steps are queued the generator can move and delivers the oldest undelivered one |
| `CycleStreamPump.Pump.WakeWaiter` | apps/console-api/src/services/cycle-stream-pump.service.ts:21-25 | clears the waiter and resumes it, or does nothing |
| `CycleStreamPump.Pump.StepEmitted` | apps/console-api/src/services/cycle-stream-pump.service.ts:28-42 | queues the step, then wakes |
| `CycleStreamPump.Pump.RunSettled` | apps/console-api/src/services/cycle-stream-pump.service.ts:56-59 | marks the run done, then wakes |
| `CycleStreamPump.Pump.Resume` | apps/console-api/src/services/cycle-stream-pump.service.ts:61-70 | one turn of the loop delivers the head of the queue, parks, or leaves for the settled run |
| `KgView.NormalizeIdempotent` | apps/console-api/src/services/kg-view.service.ts:34-42 | normalizing an id twice is normalizing it once |
| `KgView.NormalizeMeaning` | apps/console-api/src/services/kg-view.service.ts:34-42 | the four long prefixes are replaced, the rest of an id is kept and other ids are left as they are |
| `KgView.BuildEdgeIndex` | apps/console-api/src/services/kg-view.service.ts:74-81 | the index lists the incident edges of every node |
| `KgView.ExpandNode` | apps/console-api/src/services/kg-view.service.ts:90-97 | the edges at one node add its unseen neighbours once each and select its edges |
| `KgView.ExpandLevel` | apps/console-api/src/services/kg-view.service.ts:88-98 | one level sees exactly what the frontier reaches and selects what touches it |
| `KgView.Search` | apps/console-api/src/services/kg-view.service.ts:83-101 | with the early exit the search finds the ball of the given radius and the edges touching the ball one smaller |
| `KgView.StoppedEarly` | apps/console-api/src/services/kg-view.service.ts:99 | after an empty level neither result changes any more |
| `KgView.BallIsDistance` | apps/console-api/src/services/kg-view.service.ts:83-101 | the ball is the set of nodes joined to the root by a walk of at most that many edges |
| `KgView.SelectedEndsAreSeen` | apps/console-api/src/services/kg-view.service.ts:112-114 | both ends of a selected edge were seen, so the final filter changes nothing |
| `KgView.GetNeighbourhood` | apps/console-api/src/services/kg-view.service.ts:63-121 | the response has one node per id within the distance, never a farther one before a nearer one, and, by id, the edges touching a node nearer than the depth |
| `KgView.NodeForIsLast` | apps/console-api/src/services/kg-view.service.ts:72-110 | an id stands for the last listed node with it, or for the placeholder |
| `KgView.NearestFirstStep` | apps/console-api/src/services/kg-view.service.ts:88-98 | a level appends only nodes at the new distance, so the nodes seen stay ordered by their distance from the root |
| `KgView.EdgesExactly` | apps/console-api/src/services/kg-view.service.ts:63-121 | with distinct edge ids the returned edges are exactly those with an end at distance less than the depth |
| `SimRunLifecycle.EveryStepIsLegal` | apps/console-api/src/controllers/sim-run.controller.ts:37-49 | every atomic step moves statuses only along the table, removes no row and keeps swarm and fish index |
| `SimRunLifecycle.UpdateMovesIff` | apps/console-api/src/controllers/sim-run.controller.ts:37-106 | an update is accepted if and only if it keeps the status or makes one of eight moves; then status and completion time are the stated ones, otherwise nothing changes |
| `SimRunLifecycle.FinishedWasRunning` | apps/console-api/src/controllers/sim-run.controller.ts:37-49 | in every run a fish that is done or timed out was running before, or was inserted with that status |
| `SimRunLifecycle.ReachableInvariant` | apps/console-api/src/repositories/sim-run.repository.ts:166-210 | every run keeps fish unique and what was handed out away from pending |
| `SimRunLifecycle.TerminalIsAbsorbing` | apps/console-api/src/controllers/sim-run.controller.ts:37-49 | a finished fish keeps its status through any continuation |
| `SimRunLifecycle.PendingIsInitial` | apps/console-api/src/controllers/sim-run.controller.ts:37-49 | a fish that left pending never returns to it |
| `SimRunLifecycle.NoFishIsClaimedTwice` | apps/console-api/src/repositories/sim-run.repository.ts:166-192 | under any interleaving no fish is handed out twice |
| `SimRunLifecycle.ClaimsAreDisjoint` | apps/console-api/src/repositories/sim-run.repository.ts:166-192 | two claims of one run never return the same fish |
| `SimRunLifecycle.PickPending` | apps/console-api/src/repositories/sim-run.repository.ts:172-180 | picks the unlocked pending fish with the smallest indices, up to the limit |
| `SimRunLifecycle.PickMeaning` | apps/console-api/src/repositories/sim-run.repository.ts:172-180 | a pick takes waiting fish, no more than asked for, and leaves one out only when it is full and took none with a greater index |
| `SimRunLifecycle.AbortClosesSwarm` | apps/console-api/src/repositories/sim-swarm.repository.ts:153-170 | right after an abort the swarm has no pending or running fish; those it failed share one timestamp and all else is unchanged |
| `SimRunLifecycle.PausedSurvivesAbort` | apps/console-api/src/repositories/sim-swarm.repository.ts:160-168 | a paused fish survives the abort and may run again |
| `SimRunLifecycle.UpdateKeepsStampsIff` | apps/console-api/src/controllers/sim-run.controller.ts:96-104 | an accepted update keeps the completion times right exactly when the time it asks for, if any, fits its status |
| `SimRunLifecycle.StampIffTerminal` | apps/console-api/src/controllers/sim-run.controller.ts:96-104 | while requests are consistent in this sense, a fish carries a completion time exactly when it has finished |
| `SimRunLifecycle.CountsAddUp` | apps/console-api/src/repositories/sim-run.repository.ts:128-149 | the six status counts add up to the number of fish of the swarm |
| `SimRunLifecycle.CountsAreConserved` | apps/console-api/src/repositories/sim-run.repository.ts:128-149 | at every point of every run they add up to the number of fish created |
| `SimRunLifecycle.UpdateMovesCount` | apps/console-api/src/repositories/sim-run.repository.ts:128-149 | an accepted change of status moves one fish from one count to the other |
| `SplitStatusUpdate.SingleClaimsIff` | apps/console-api/src/controllers/sim-run.controller.ts:91-104 | with the read and the write of an update as separate steps, no run hands a fish out twice if and only if no request asks for pending |
| `SplitStatusUpdate.FinishedIsFinalIff` | apps/console-api/src/controllers/sim-run.controller.ts:91-104 | finished fish keep their status, and every step stays on the status table, if and only if requests ask for nothing but failed |
| `SplitStatusUpdate.PendingReclaims` | apps/console-api/src/controllers/sim-run.controller.ts:91-104 | a run in which a stale pending write leads to a second claim |
| `SplitStatusUpdate.OverwritesFailed` | apps/console-api/src/controllers/sim-run.controller.ts:91-104 | for every status but failed, a run in which a stale write reopens or replaces a failed fish |
| `SimRunLifecycle.SimRunTable.Insert` | apps/console-api/src/repositories/sim-run.repository.ts:41-57 | inserts a row, by default pending, unless a constraint is violated |
| `SimRunLifecycle.SimRunTable.ClaimPendingFishForSwarm` | apps/console-api/src/repositories/sim-run.repository.ts:166-192 | sets an admissible pick running and returns it |
| `SimRunLifecycle.SimRunTable.GuardedUpdate` | apps/console-api/src/controllers/sim-run.controller.ts:83-106 | not found, conflict, or the new status with its completion stamp; errors change nothing |
| `SimRunLifecycle.RunPicked` | apps/console-api/src/repositories/sim-run.repository.ts:181-184 | the claim's update sets exactly the picked rows running |
| `SimRunLifecycle.CloseOpenRows` | apps/console-api/src/repositories/sim-swarm.repository.ts:160-168 | the abort's second update closes exactly the pending and running rows of the swarm |
| `SimRunLifecycle.SimRunTable.AbortSwarm` | apps/console-api/src/repositories/sim-swarm.repository.ts:153-170 | the two updates of the transaction together fail the swarm and its open fish and change nothing else |
| `JsonMerge.DeepMergeJson` | apps/console-api/src/services/runtime-config.service.ts:110-121 | the loop over the entries of the source computes the key-by-key merge |
| `JsonMerge.MergeIdempotent` | apps/console-api/src/services/runtime-config.service.ts:110-121 | merging the same override again changes nothing |
| `JsonMerge.MergeAbsorbedIff` | apps/console-api/src/services/runtime-config.service.ts:110-121 | merging a value into the defaults gives the value back if and only if it keeps the keys of the default objects it meets |
| `JsonMerge.PatchedCovers` | apps/console-api/src/services/runtime-config.service.ts:243-246 | an override that never replaced a default object leaves room for every later patch |
| `JsonMerge.LostWithoutKeepingObjects` | apps/console-api/src/services/runtime-config.service.ts:243-246 | a witness that the condition is needed |
| `RuntimeConfig.SerializedParsesBack` | apps/console-api/src/services/runtime-config.service.ts:69-150 | a serialized field parses back to itself, and only the empty string serializes to the empty text |
| `RuntimeConfig.ReadableIsWritable` | apps/console-api/src/services/runtime-config.service.ts:69-150 | every value that can be read for a kind can be written for it |
| `RuntimeConfig.ReadConfig` | apps/console-api/src/services/runtime-config.service.ts:207-223 | every field is its default, its stored value, or for JSON the merge of both |
| `RuntimeConfig.FieldReads` | apps/console-api/src/services/runtime-config.service.ts:69-94 | what a stored text reads as, kind by kind; texts that are empty, undeclared or not of the kind leave the default |
| `RuntimeConfig.UpdateRoundTrip` | apps/console-api/src/services/runtime-config.service.ts:225-256 | what an update prepared and stored reads back as the validated candidate if and only if every written field survives; other fields read as before |
| `RuntimeConfig.UpdateReadsBack` | apps/console-api/src/services/runtime-config.service.ts:225-256 | it does whenever stored JSON overrides keep objects and the patch clears no string |
| `FaithfulCodec.FaithfulExists` | apps/console-api/src/services/runtime-config.service.ts:69-150 | there are number and JSON texts that parse back and are never empty, as the round trip assumes |
| `FaithfulCodec.ClearedStringReturns` | apps/console-api/src/services/runtime-config.service.ts:215-218 | an update that clears a string answers with the default string |
| `FaithfulCodec.ReplacedObjectReturns` | apps/console-api/src/services/runtime-config.service.ts:219-256 | over an override that replaced the default object, an update answers with default keys that the value it wrote lacks |
| `RuntimeConfig.PreparedFrom` | apps/console-api/src/services/runtime-config.service.ts:235-251 | every written field is a patch value, for JSON merged into the current one |
| `RuntimeConfig.PrepareApplies` | apps/console-api/src/services/runtime-config.service.ts:235-251 | the last value given to every field is written, for JSON merged into the current one, and no other field is written or changed |
| `RuntimeConfig.PrepareRefusesIff` | apps/console-api/src/services/runtime-config.service.ts:235-251 | a patch is refused if and only if an entry is undeclared or not of its kind, with the error of the first such entry |
| `RuntimeConfig.AppliedReadsBack` | apps/console-api/src/services/runtime-config.service.ts:235-255 | after an update every field given a value reads as that value if and only if it survives, and every other field as before |
| `RuntimeConfig.OverlayFixedIff` | apps/console-api/src/services/runtime-config.service.ts:219-220 | a JSON value reads back unchanged exactly when it keeps the keys of the default objects it meets |
| `RuntimeConfig.JsonSurvivesPatch` | apps/console-api/src/services/runtime-config.service.ts:243-246 | a JSON field survives every patch when the stored override never replaced a default object |
| `RuntimeConfig.PrepareFailsEarly` | apps/console-api/src/services/runtime-config.service.ts:235-251 | the first bad entry decides the error |
| `RuntimeConfig.RuntimeConfigService.Get` | apps/console-api/src/services/runtime-config.service.ts:207-223 | the configuration of a registered domain, an error otherwise |
| `RuntimeConfig.RuntimeConfigService.Update` | apps/console-api/src/services/runtime-config.service.ts:225-256 | validates before it writes; a rejected patch writes nothing and no other domain changes; an accepted one writes the last value given to every field and no other; the answer is the candidate exactly when every written field survives |
| `RuntimeConfig.RuntimeConfigService.Reset` | apps/console-api/src/services/runtime-config.service.ts:258-265 | clears the domain and returns the defaults |
| `KnnPropagation.DecideTarget` | apps/console-api/src/services/knn-propagation.service.ts:88-139 | the loop and branches reach the specified verdict and count the unusable values |
| `KnnPropagation.FindTextConsensus` | apps/console-api/src/services/knn-propagation.service.ts:128-133 | the first most frequent value is accepted exactly when some value has at least 66 percent |
| `KnnPropagation.CountFrequencies` | apps/console-api/src/services/knn-propagation.service.ts:128-130 | the frequency map holds the number of occurrences of every value |
| `KnnPropagation.NumericFillIsSupported` | apps/console-api/src/services/knn-propagation.service.ts:98-127 | a numeric fill is an in-range neighbour value backed by at least three usable values all within ten percent of it |
| `KnnPropagation.TextFillIsMajority` | apps/console-api/src/services/knn-propagation.service.ts:128-133 | a text fill has at least 66 percent of at least three values and every other value has less than half |
| `KnnPropagation.MedianIsMiddle` | apps/console-api/src/services/knn-propagation.service.ts:122-123 | the sorted values up to the middle are at most the median, those from it on at least |
| `KnnPropagation.DecidePermutation` | apps/console-api/src/services/knn-propagation.service.ts:88-139 | the verdict does not depend on the order of the neighbours given the same nearest distance |
| `KnnPropagation.RecordTallies` | apps/console-api/src/services/knn-propagation.service.ts:81-166 | the counters stay the tallies of the verdicts, and attempted is filled plus disagree plus too far |
| `KnnVerdicts.NumericFillIff` | apps/console-api/src/services/knn-propagation.service.ts:88-139 | a numeric field is filled with m if and only if the neighbours are near enough, three or more usable values remain, m is in their middle and all lie within a tenth of it; too far and disagreement are characterised likewise |
| `KnnVerdicts.TextFillIff` | apps/console-api/src/services/knn-propagation.service.ts:88-139 | a text field is filled with s if and only if the neighbours are near enough, three or more have a value and at least 66 percent of these are s after tidying |
| `KnnVerdicts.RejectedMeaning` | apps/console-api/src/services/knn-propagation.service.ts:98-113 | counted as out of range are the neighbours with a value that offers no number the column admits |
| `KnnVerdicts.FillsMembers` | apps/console-api/src/services/knn-propagation.service.ts:138-165 | the fills are those of the targets decided so, with the value decided on |
| `KnnPropagation.KnnPropagationService.Propagate` | apps/console-api/src/services/knn-propagation.service.ts:61-169 | the counters and the writes over all targets; a dry run writes nothing |
| `SpendLedger.TotalSinceAntitone` | apps/console-api/src/services/spend-ledger.ts:21-46 | a later start of the period never raises a total |
| `SpendLedger.TotalSinceFilter` | apps/console-api/src/services/spend-ledger.ts:15-18 | dropping entries from before the period changes no total over it |
| `SpendLedger.RecordAdds` | apps/console-api/src/services/spend-ledger.ts:13-46 | recording, with its pruning, adds exactly the new cost and cycles to every period of at most a month |
| `CapStops.TotalSinceIsSum` | apps/console-api/src/services/spend-ledger.ts:21-46 | a total is the sum over the entries not before the start of the period |
| `SpendLedger.Ledger.RecordSpend` | apps/console-api/src/services/spend-ledger.ts:13-19 | appends the entry and prunes a month when the oldest entry is older |
| `SpendLedger.Ledger.SumUsd` | apps/console-api/src/services/spend-ledger.ts:21-37 | the loop adds the costs since the start of the period |
| `SpendLedger.Ledger.SumCycles` | apps/console-api/src/services/spend-ledger.ts:39-46 | the loop adds the cycles since the start of the period |
| `Autonomy.PushKeepsNewest` | apps/console-api/src/services/autonomy.service.ts:193-194 | unshift and pop keep the newest forty ticks |
| `Autonomy.OneTickAtATime` | apps/console-api/src/services/autonomy.service.ts:66-210 | under any interleaving at most one tick is in flight, exactly when busy; the history is the newest forty completed ticks; a running loop has its timer armed and no stop reason; the interval stays within its clamp |
| `Autonomy.FirstReasonIsKept` | apps/console-api/src/services/autonomy.service.ts:86-94 | the first stop reason is kept until the next start |
| `Autonomy.TicksBegin` | apps/console-api/src/services/autonomy.service.ts:71-112 | a timer fire or a resumed start begins exactly one tick when the loop runs and none is in flight |
| `Autonomy.KnownMembers` | apps/console-api/src/services/autonomy.service.ts:212-218 | normalizing a rotation keeps exactly its known actions |
| `Autonomy.NormalizedInOrder` | apps/console-api/src/services/autonomy.service.ts:212-220 | normalizing keeps the known actions in their order with repetitions, and falls back to thalamus when none is left |
| `Autonomy.ClampIsNearest` | apps/console-api/src/services/autonomy.service.ts:114-115 | the interval is the number of seconds from 15 to 600 nearest to the one asked for |
| `Autonomy.ChosenInTurn` | apps/console-api/src/services/autonomy.service.ts:120-122 | in every run under one rotation the k-th configured tick is given the k-th action in turn |
| `Autonomy.RotationIsFair` | apps/console-api/src/services/autonomy.service.ts:120-122 | in every such run each round of consecutive ticks includes every action of the rotation and no tick does another, the fallback apart |
| `Autonomy.TickDoneKeepsSpend` | apps/console-api/src/services/autonomy.service.ts:181-201 | a completed tick that leaves the loop running leaves every cap in force below its limit |
| `CapStops.TickAdds` | apps/console-api/src/services/autonomy.service.ts:134-186 | the end of a tick adds its cost if a thalamus action succeeded, and a cycle for every thalamus action |
| `CapStops.TickStopsIff` | apps/console-api/src/services/autonomy.service.ts:200-240 | the end of a tick stops a running loop if and only if its configuration says so and the total of some period has come up to a positive limit, and the reason is the first such cap |
| `CapStops.CapReasonIsReached` | apps/console-api/src/services/autonomy.service.ts:200-240 | in every run a cap given as reason was reached, first in order, at the end of a tick that stopped the running loop |
| `CapStops.RunsOn` | apps/console-api/src/services/autonomy.service.ts:86-204 | in every run a running loop runs on as long as nobody stops it and no tick ends with an enforced cap reached |
| `Autonomy.SpendIsBounded` | apps/console-api/src/services/autonomy.service.ts:66-241 | for each of the three caps, under any interleaving of starts, stops, timer fires, resets and passing time, what is used up stays below the limit plus one tick's share per start, and one share less while the loop runs |
| `RollingSpend.SpendIsBoundedInPeriod` | apps/console-api/src/services/autonomy.service.ts:66-241 | what is used up of a cap over its rolling period stays below the limit plus one tick's share for each start within that period and one more, and below one share less while the loop runs |
| `Autonomy.StoppedLoopWindsDown` | apps/console-api/src/services/autonomy.service.ts:86-112 | after a stop and until a start resumes no tick begins, whatever timers fire: at most the one in flight completes |
| `Autonomy.StoppedIsUnarmedIff` | apps/console-api/src/services/autonomy.service.ts:73-118 | in every reachable state the timer is armed exactly while the loop runs, if and only if all requested and configured intervals agree after clamping |
| `Autonomy.TimerOutlivesStop` | apps/console-api/src/services/autonomy.service.ts:112-118 | otherwise a tick waiting for its configuration arms it after a stop |
| `Autonomy.AutonomyService.BeginStart` | apps/console-api/src/services/autonomy.service.ts:71-73 | does nothing while running, otherwise waits for the configuration |
| `Autonomy.AutonomyService.FinishStart` | apps/console-api/src/services/autonomy.service.ts:74-83 | clamps the interval, arms the timer, clears the stop reason and begins a tick |
| `Autonomy.AutonomyService.StopLoop` | apps/console-api/src/services/autonomy.service.ts:86-94 | clears timer and running, and keeps the first stop reason |
| `Autonomy.AutonomyService.BeginTick` | apps/console-api/src/services/autonomy.service.ts:108-112 | does nothing while busy or stopped |
| `Autonomy.AutonomyService.ConfigureTick` | apps/console-api/src/services/autonomy.service.ts:113-122 | reschedules on a new interval and takes the next action of the rotation |
| `Autonomy.AutonomyService.CheckCaps` | apps/console-api/src/services/autonomy.service.ts:222-241 | the first exhausted cap: daily, monthly, then cycles |
| `Autonomy.AutonomyService.FinishTick` | apps/console-api/src/services/autonomy.service.ts:181-209 | records spend, history and count, stops on an exhausted cap and clears busy |

## Left out

Assumptions of the learner's model:

- Timestamps and order indices are integers; the filter for non-finite timestamps is not modelled.
- Ids and signatures are compared by code unit, not by locale; any total order would do.
- `max_steps`, the candidate cap and the window lengths are integers.
- Where keys are read back as sequences, signatures are assumed free of the unit separator (U+001F) that joins them.
- Rates and scores are real numbers; `Math.exp` and `Math.log1p` are arbitrary functions with the bounds and
  monotonicity stated in `TraceCurve` and `LogCurve`; floating-point rounding is not modelled, the rounding to six
  digits is.
- The target-proxy patterns are an arbitrary predicate on signatures.
- The pattern hash is an arbitrary function, and whether the pattern version is blank a given; the source list of a
  hypothesis, the rate of its best component beside the difference to it, and progress reports are not modelled; example
  ids are sets, not sorted lists.
- `buildTemporalEventSets`, which groups sorted events by timestamp and is not used by the learner.
- SHA-256; only the preimage of a canonical event id is modelled.

Services:

- CycleStreamPump: a consumer that abandons the generator early, several `next()` calls at once and a `run` that throws
  before returning its promise; elapsed times and the extra fields of a step.
- KgView: the translation of database rows to nodes and edges, which is taken as given; `label` and `class` are called
  `caption` and `cls`.
- SimRunLifecycle: each request and each SQL statement is one atomic step; `SplitStatusUpdate` takes the update apart
  into its two statements. Rows other transactions hold are a parameter of the claim. Callers that write a status
  without the guard, agent counts and swarm statuses beyond failed are not modelled.
- RuntimeConfig: number and JSON texts are arbitrary functions that parse back and are never empty, over doubles that
  are finite and not the negative zero and over the values JSON expresses; NaN, infinities and the negative zero are
  left out, and so are names inherited from object prototypes, updates that interleave between reading and writing, and
  logging.
- KnnPropagation: audit rows, enrichment events and the similarity they report; the neighbour query itself is a
  parameter.
- Autonomy: query rotation, ids, start times of ticks, emitted counts, the current tick and the public state; a clock
  that goes backwards; costs reported by a failed action. `stop` and `tick` are modelled between their awaits.
- HTTP routes, request validation, user interface, language-model calls and the mission service are not part of this
  model.
