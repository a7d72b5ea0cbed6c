# ChronicleGate verification

A Dafny model of the deterministic engines inside ChronicleGate, with proofs of what the rest of the tool relies on. Each part
follows one component; code that updates state in place is modelled by methods and classes that are proved against
specification functions, and code made of expressions by functions and lemmas.

- **Seeded plan and paired statistics** (`SplitMix`, `GoldenVectors`, `Sampling`, `SchedulePlan`, `Workload`, `OrderStatistics`,
  `Analysis`, `Pairing`). The 64-bit generator is a bijective mix of a full-period counter, so rejection sampling terminates and is
  unbiased. Every accepted workload gives a balanced, proportional, strictly ordered plan without overflow. The decision rule is
  monotone in the candidate's latencies, and its guarded integer comparison is exact. 64-bit arithmetic is written out on
  integers; the statistics use reals.
- **Checkpoint gates** (`Gates`, `Probe`). The probe's locked sections are atomic steps over gates, occurrence counters and
  parked handlers; the invariants hold under every interleaving. `Probe` is the imperative form of the same steps.
- **Step graph and fault ordering** (`StepGraph`, `Scenario`, `Topological`, `Ancestors`, `LinearExtensions`, `FaultOrdering`,
  `RewindSafety`, `ControlledShape`, `ControlledPlan`, `EarlyRelease`). Kahn's algorithm and both depth-first searches over one
  graph, and what the ordering rules mean for every linear extension.
- **Rewind runs** (`VerticalPlan`, `RewindAttempt`). The plan that the engine reads off a scenario and its fixed sequence of calls,
  interleaved with the consumer of `Projector`.
- **Scenario reducer** (`Reduction`, `Proposals`, `ProposalOrder`, `ReductionMeasure`, `Reducer`, `ReducerHalting`). The closure
  transforms and the order of the proposals, the cached greedy loop for an arbitrary predicate, its claim of minimality, and when it
  halts.
- **Observation diff and normal form** (`Pointers`, `PointerWalks`, `Comparison`, `ComparisonPointers`, `ReportedDifferences`,
  `ReportOrder`, `Records`, `KeyedRecords`, `Documents`, `Normalization`, `RuleEffects`, `NormalizationTwice`, `RulePairs`,
  `RuleConflicts`). Tree, set and keyed comparison, stable ordering, what every rule does, and normalizing twice; `CanonicalText`,
  `SampleDocuments` and `OppositeOrders` build the documents that show a conflict.
- **At-least-once consumer and domain transition** (`Projector`, `ProjectorStore`, `Transition`). Delivery, crashes and rewinds
  against one reservation per event; confluence of the aggregate under reordering and redelivery.
- **Journal and duplicate-key scanner** (`Journal`, `RunJournal`, `DuplicateKeys`). Reading a journal after any cut, ending a run,
  and the token automaton against a recursive definition.

`Arithmetic`, `Cardinality`, `Text`, `Keys` and `Options` hold shared facts about division, finite sets, sorted strings and optional
values.

## Where the code and its promises differ

The first five are promises that fail: a lemma gives the input, or the family of inputs, and another the exact or a checkable
condition under which the promise holds.

- The fault-ordering rules alone do not keep a rewound service down: a plan that they accept may have another restart that is
  unordered with the rewind, and so a linear extension in which the service is up (`RewindSafety`). The engine does not follow the
  graph there: it publishes, stops, waits for the group to be empty, rewinds and restarts in a fixed order, so that every rewind it
  makes is safe (`VerticalPlan`, `RewindAttempt`).
- A cross-stream plan that validator and engine accept may release one handler before the other is blocked, because only the last
  release of a tuple is looked at (`ControlledShape`, `EarlyRelease`).
- A trial budget does not make the reducer halt: in every scenario with a number, numeric boundary values can be exchanged forever
  through cache hits (`ReducerHalting`).
- Applying normalization twice is documented as idempotent in BUILD_PLAN.md, and is not when a later rule leaves at the place of
  an earlier one what that rejects (no array, no timestamp), replaces a record of a stably ordered array, edits an order key of one,
  be it by another stable order inside the key, or moves the records that an earlier stable order reaches into
  (`NormalizationTwice`; exactly when, for any two rules: `RuleConflicts`).
- The rewind bounds allow a target past the committed offset, which skips records when it is past the greatest offset in the
  ledger too (`Projector`).

The others describe the code where it says nothing:

- A run goes on to append to its journal after a failed append, which can make the journal unreadable, or keep the event that
  failed and drop the next one (`Journal`).
- A handler of a released gate may still return its context's error (`Gates`).
- The last completeness check of the trial pairing cannot fail (`Pairing`).

## Reading the model

Hashes, canonical JSON and the journal's line encoding are function parameters that are required to be injective or to decode what
they encode; where the order of canonical JSON matters, its texts are required to be those of JSON (`CanonicalText.JsonText`).
Clocks, disks, predicates and fresh identifiers are parameters too. Function values and maps are total: a scenario is its own cache
key, a gate is found by its handle. `hide` statements only narrow what the verifier looks at.

## Model

| member | source | states |
|---|---|---|
| SplitMix.MixIsBijective | internal/bench/schedule.go:134-140 | the output mix of the generator has a two-sided inverse on the 64-bit words |
| SplitMix.MixIsInjective | internal/bench/schedule.go:134-140 | two counter states never give the same output |
| SplitMix.StatesDistinct | internal/bench/schedule.go:135-136 | the counter has full period: no state repeats within 2^64 calls |
| SplitMix.DrawsDistinct | internal/bench/schedule.go:134-140 | no output repeats within 2^64 consecutive calls, from any seed |
| GoldenVectors.SeedZero | internal/bench/bench_test.go:48-54 | the two outputs for seed 0 that the test expects |
| Sampling.ThresholdIsRemainder | internal/bench/schedule.go:146 | the wrapped negation modulo the bound is 2^64 mod bound and smaller than the bound |
| Sampling.RejectionRunIsShort | internal/bench/schedule.go:147-152 | no run of rejected outputs is longer than 2^64 mod bound, by the pigeonhole principle |
| Sampling.SomeDrawIsAccepted | internal/bench/schedule.go:147-152 | from every state and for every nonzero bound some output within (2^64 mod bound) + 1 draws is accepted |
| Sampling.Rejections | internal/bench/schedule.go:147-152 | the number of outputs thrown away, at most 2^64 mod bound; all of them rejected and the next one accepted |
| Sampling.BoundedMeans | internal/bench/schedule.go:142-153 | the bounded value differs from the first accepted output by a multiple of the bound |
| Sampling.Generator.Next | internal/bench/schedule.go:134-140 | advances the counter by the increment and returns the mix of the new state |
| Sampling.Generator.Bounded | internal/bench/schedule.go:142-153 | the unguarded loop terminates and returns what the bound leaves of the first accepted output, and the state after it |
| Sampling.OutputsAreUnbiased | internal/bench/schedule.go:142-153 | every residue below the bound has exactly (2^64 - threshold) / bound accepted raw outputs |
| Sampling.FirstDrawIsUnbiased | internal/bench/schedule.go:134-153 | over all 2^64 generator states every value is returned after the first draw from equally many of them |
| SchedulePlan.ShuffleIsPermutation | internal/bench/schedule.go:56-59 | the downward shuffle permutes, for every generator state |
| SchedulePlan.Shuffle | internal/bench/schedule.go:56-59 | the in-place swaps leave the array as the shuffle function of its old contents and the generator state |
| SchedulePlan.ShuffledByDraws | internal/bench/schedule.go:56-59 | the shuffle of a generator is that of the list of its bounded draws |
| SchedulePlan.SelectionsAreTold | internal/bench/schedule.go:56-59 | two different lists of selections shuffle different elements into different orders |
| SchedulePlan.EveryOrderIsReached | internal/bench/schedule.go:56-59 | every order of the elements comes from some list of selections |
| SchedulePlan.ShuffleIsBalanced | internal/bench/schedule.go:46-59 | for every order seed each target runs first in exactly half of the rounds |
| SchedulePlan.SelectionIsUnique | internal/bench/schedule.go:101-110 | a draw selects at most one operation |
| SchedulePlan.SelectionIsProportional | internal/bench/schedule.go:101-110 | exactly weight-many of the draws below the total weight select an operation |
| SchedulePlan.Select | internal/bench/schedule.go:101-110 | the cumulative-weight walk finds the operation whose interval holds the draw; the fallback is never needed |
| SchedulePlan.OffsetsIncrease | internal/bench/schedule.go:97-100 | arrival offsets strictly increase with the ordinal for rates up to 10^9 per second |
| SchedulePlan.OffsetsAreWithinPhase | internal/bench/schedule.go:87-100 | every offset lies in [0, duration) |
| SchedulePlan.OffsetsRepeat | internal/bench/schedule.go:100 | offset(k + rate) = offset(k) + 10^9 |
| SchedulePlan.BuildRequests | internal/bench/schedule.go:86-124 | a phase issues its derived number of requests, each with its offset and the operation that its own draw selects |
| SchedulePlan.PhaseMeans | internal/bench/schedule.go:86-124 | the k-th request has ordinal k, offset k * 10^9 / rate, and an operation whose share of the total weight holds the k-th draw |
| SchedulePlan.RoundDraws | internal/bench/schedule.go:61-73 | warmup and measurement of a round take consecutive draws of one generator |
| SchedulePlan.BuildRounds | internal/bench/schedule.go:61-73 | every round draws both phases from a generator seeded by the request generator |
| SchedulePlan.BuildPlan | internal/bench/schedule.go:42-73 | for an accepted workload the plan has the scheduled rounds, balanced first targets, and phases as specified; nothing overflows; any other workload gets no plan |
| SchedulePlan.PlanStaysWithinInventory | internal/spec/benchmark.go:197-201 | running every planned round on both targets issues at most 1,000,000 requests |
| SchedulePlan.PhaseIsOrdered | internal/bench/schedule.go:95-121 | the offsets of a built phase strictly increase and lie inside the phase |
| Workload.CheckedDurationSum | internal/spec/benchmark.go:290-299 | the sum of the durations, or nothing when a partial sum leaves the 64-bit range |
| Workload.DerivedRequestCount | internal/spec/benchmark.go:276-281 | the whole number of rate ticks in the duration, or -1 where the source signals an empty or overflowing product |
| Workload.WithinLimitIsExact | internal/spec/benchmark.go:199-203 | the wrapping, division-guarded 64-bit comparison decides the exact inequality |
| Workload.InventoryFits | internal/spec/benchmark.go:198-201 | the wrapping request inventory check is exact for every 64-bit count, but that it also refuses 2^62 rounds and more |
| Workload.RunFits | internal/spec/benchmark.go:202-205 | the wrapping two-hour check accepts exactly a positive sum within two hours whose first partial sum stays in the 64-bit range |
| Workload.CheckOperations | internal/spec/benchmark.go:96-113 | reports exactly the wrong count, the malformed and the repeated identifiers, the nonpositive weights and the weights that overflow the running total, each at its operation; nothing exactly when the operations are accepted in exact arithmetic |
| Workload.ValidateWorkload | internal/spec/benchmark.go:80-208 | reports exactly the broken rules at their places; nothing exactly when the schedule and the operations meet the bounds in exact arithmetic |
| OrderStatistics.SortedIsAscendingPermutation | internal/bench/statistics.go:155 | sorting the bootstrap means gives an ascending permutation |
| OrderStatistics.SortedIsMonotone | internal/bench/statistics.go:155 | raising samples never lowers an order statistic |
| OrderStatistics.NearestRankIndex | internal/bench/statistics.go:279-288 | the index of a quantile lies inside the sorted samples |
| OrderStatistics.NearestRankIsLeast | internal/bench/statistics.go:279-288 | the index is the least one at which the samples up to it make up the quantile |
| Analysis.ComputeDeltas | internal/bench/statistics.go:131-143 | the deltas and their guarded sum, or the first round that is no valid pair or overflows the 64-bit sum |
| Analysis.Bootstrap | internal/bench/statistics.go:147-155 | every replicate is the mean of as many seeded draws as there are rounds |
| Analysis.MeanRule | internal/bench/statistics.go:162-165 | the guarded comparison of the 64-bit sum with the 64-bit product decides exactly whether the mean reaches the threshold |
| Analysis.Analyze | internal/bench/statistics.go:121-167 | the verdict is a regression exactly when the mean delta and the interval both reach their thresholds; each error is returned exactly when its guard is the first to fail, an invalid pair with its round |
| Analysis.IntervalIsOrdered | internal/bench/statistics.go:147-160 | least delta <= lower bound <= upper bound <= greatest delta |
| Analysis.LowerIsMonotone | internal/bench/statistics.go:147-160 | with the same seed, larger deltas never lower the lower bound |
| Analysis.SlowerNeverPasses | internal/bench/statistics.go:121-167 | raising candidate latencies never turns a regression into a pass |
| Analysis.NoSlowerIsNoRegression | internal/bench/statistics.go:121-167 | a candidate that is no slower in any round is never a regression |
| Pairing.PairTrials | internal/bench/statistics.go:169-206 | accepts exactly the inventories that hold one valid trial per round and target, and pairs each with its round; every error names the first trial at fault and its fault |
| Pairing.InventoryIsComplete | internal/bench/statistics.go:179-205 | as many trials as slots without a duplicate cover every round, so the final completeness check cannot fail |
| Pairing.PairsIgnoreOrder | internal/bench/statistics.go:169-206 | the pairs do not depend on the order in which the trials were recorded |
| Gates.StepKeepsInv | pkg/probe/probe.go:262-435 | every atomic step of arming, entering, cancelling, waking and releasing keeps the gate invariant |
| Gates.RunKeepsInv | pkg/probe/probe.go:262-435 | so does every interleaving of them |
| Gates.LookupIsDeterministic | pkg/probe/probe.go:298-305 | at most one armed gate matches a tuple, so the unordered lookup has one answer |
| Gates.TupleBlocksOneHandler | pkg/probe/probe.go:262-295 | in the lifetime of a process an exact tuple blocks at most one handler, on at most one gate |
| Gates.ResumedOnlyAfterRelease | pkg/probe/probe.go:285-295 | a handler that resumes without error found its own gate released and that channel closed exactly once |
| Gates.ReleasedHandlerMayStillFail | pkg/probe/probe.go:285-295 | the converse fails: for every declared checkpoint a run of four steps from the start releases the gate and lets its handler return the context error |
| Gates.ParkedHandlerEndsAsTold | pkg/probe/probe.go:285-295 | over every run a parked handler returns the context error exactly if the run cancels it, returns without error exactly if it wakes, and is parked still otherwise |
| Gates.RunMovesForward | pkg/probe/probe.go:262-435 | over every run a gate keeps its tuple, its status never moves back, and an ended gate stays ended |
| Gates.MissedGateStaysArmed | pkg/probe/probe.go:266-281 | a gate armed for an occurrence that has been counted already can never block |
| Gates.AheadGateCanBlock | pkg/probe/probe.go:266-281 | an armed gate whose occurrence lies ahead is reached by a finite run of entries |
| Gates.NoBlockedGateMeansNoStuckHandler | pkg/probe/probe.go:464-477 | when no gate is reported blocked, every parked handler can go on |
| Gates.RunCountsEntries | pkg/probe/probe.go:266-276 | the occurrence counter of a base key counts the entries with that key, over every run |
| Gates.BaseIsInjective | pkg/probe/probe.go:513-515 | for parts without NUL the base key determines service, name, event and step |
| Gates.NulMergesTuples | pkg/probe/probe.go:513-515 | a NUL inside a part makes two tuples share a counter |
| Probe.Probe.FindGateLocked | pkg/probe/probe.go:298-305 | returns the handle of an armed gate with exactly the tuple, or none exactly when there is none |
| Probe.Probe.ArmCheckpoint | pkg/probe/probe.go:363-394 | the new state is that of the arming step, with the response code of each refusal |
| Probe.Probe.Enter | pkg/probe/probe.go:262-284 | the locked section performs the entering step and tells whether the handler must wait |
| Probe.Probe.CancelHandler | pkg/probe/probe.go:286-292 | the cancelled branch performs the cancelling step |
| Probe.Probe.ReleaseCheckpoint | pkg/probe/probe.go:413-435 | the new state is that of the releasing step, with the response code of each refusal |
| Probe.Probe.BeginWork | pkg/probe/probe.go:228-242 | counts one more piece of work in flight |
| Probe.Probe.Done | pkg/probe/probe.go:232-241 | counts it off once, however often it is called |
| Probe.Probe.GetQuiescence | pkg/probe/probe.go:464-477 | reports the work in flight and exactly how many gates are armed and blocked |
| Topological.TopologicalSteps | internal/engine/general.go:444-479 | succeeds exactly on unique ids, known dependencies and no cycle; the result is a permutation of the steps, every dependency earlier, and greedy by id |
| Topological.OrderIgnoresAuthoring | internal/engine/general.go:444-479 | two authored orders of the same steps give the same result |
| StepGraph.GreedyIsLeast | internal/engine/general.go:455-473 | the greedy order is the lexicographically least linear extension |
| StepGraph.GreedyIsUnique | internal/engine/general.go:455-473 | the graph alone determines it, whatever the iteration order of the maps |
| Ancestors.CycleSearch.Visit | internal/spec/validate.go:353-379 | the guarded search reports a cycle only where one is reachable, and otherwise memoises strict ancestor sets |
| Ancestors.DependencyAncestors | internal/spec/validate.go:350-386 | a cycle is reported exactly when there is one; otherwise every step gets its strict ancestors |
| Ancestors.AncestorCollector.Collect | internal/engine/controlled.go:269-285 | the unguarded search terminates on acyclic graphs and returns the strict ancestor set |
| Ancestors.EngineAncestors | internal/engine/controlled.go:263-288 | every step gets its strict ancestors |
| Ancestors.SearchesAgree | internal/engine/controlled.go:263-288 | on dependency-closed graphs both searches return the same sets |
| LinearExtensions.AlwaysBeforeIsAncestor | internal/engine/controlled.go:290-293 | one step precedes another in every linear extension exactly when it is an ancestor |
| LinearExtensions.SomeBeforeIsSomeAncestor | internal/spec/validate.go:458-465 | some step of a set precedes in every linear extension, not always the same one, exactly when one of them is an ancestor |
| LinearExtensions.SomeAfterIsSomeDescendant | internal/spec/validate.go:467-474 | the same for steps that follow |
| FaultOrdering.DuplicateArms | internal/spec/validate.go:389-399 | reports exactly the arms whose tuple an earlier step armed |
| FaultOrdering.ValidateFaultOrdering | internal/spec/validate.go:388-438 | reports exactly the broken rules at the steps that break them, probe declarations included; nothing exactly when the plan is accepted |
| FaultOrdering.ProbeRulesAreExact | internal/spec/validate.go:522-542 | which probe declarations are reported at an arm: none or disabled, the checkpoint undeclared, or no manual commit of one record at a time for the two offset-commit checkpoints |
| FaultOrdering.UnawaitedArm | internal/spec/validate.go:424-434 | an arm without an await is reported for that, not for its publication or end |
| FaultOrdering.RulesAreExact | internal/spec/validate.go:402-428 | the rewind, release, re-arming and await rules are reported for a step exactly when some linear extension breaks them there |
| FaultOrdering.ArmRulesAreExact | internal/spec/validate.go:419-434 | so are the publication and terminal rules at an arm whose tuple is awaited |
| FaultOrdering.ArmLifecycle | internal/spec/validate.go:389-434 | in every linear extension of an accepted plan an armed tuple, which no other step arms, is published exactly, then awaited, then released or its service stopped |
| RewindSafety.DownExactlyWhenRestartsAreOrdered | internal/spec/validate.go:402-413 | a rewound service is down in every linear extension exactly when the stop rule holds and every restart of the service depends on the rewind or is followed by a stop that the rewind depends on |
| RewindSafety.AcceptedPlanHasUnsafeOrder | internal/spec/validate.go:402-413 | a concrete plan that the rules accept and one of whose linear extensions rewinds a service that is up |
| VerticalPlan.ReadSteps | internal/engine/run.go:266-284 | one pass over the authored steps keeps the publications, the last rewind and the last observation, and stops exactly at a rewind after one with a topic |
| VerticalPlan.KeyPublications | internal/engine/run.go:285-300 | the plan of every publication, with the first undeclared event or wrong key, and how many publications are to the log that is rewound |
| VerticalPlan.BuildVerticalPlan | internal/engine/run.go:256-318 | takes exactly the scenarios with one service, one rewind of a log with one publication, keyed events, an SQL observation and one invariant, whatever the dependencies; otherwise reports the first guard that fails |
| VerticalPlan.TakenPlan | internal/engine/run.go:256-318 | what a taken plan holds: all publications in authored order, one of them to the log that is rewound, the one service and invariant, and the last observation, declared as a query |
| VerticalPlan.RefusalMeans | internal/engine/run.go:256-318 | each refusal names something that is wrong with the scenario |
| VerticalPlan.MissingActionsRefuse | internal/engine/run.go:285-287 | a scenario without the three actions is refused at that guard or an earlier one |
| RewindAttempt.RunKeepsInv | internal/engine/run.go:650-830 | in every interleaving of the engine's calls with the consumer, its crashes, its group membership and failures, each stage holds what the stages before established |
| RewindAttempt.StageGuards | internal/engine/run.go:752-830 | exactly when each call goes on to the next stage, waits or fails |
| RewindAttempt.RewindIsSafe | internal/engine/run.go:764-800 | in every attempt of a taken plan only the rewind call sets the committed offset back, and then the service is stopped, the group is empty and the record of the target is processed |
| RewindAttempt.RewindSucceeds | internal/engine/run.go:790-796 | the group check and the bounds of that call never refuse it |
| RewindAttempt.CompletedAttempt | internal/engine/run.go:764-830 | an attempt that completes has delivered the record exactly twice, confirmed both, and reserved once with the guard and twice without |
| RewindAttempt.CompletedVariant | examples/order-lifecycle/services/fulfillment-projector/main.go:176-187 | in a completed attempt the baseline has reserved once, candidate-r1 twice, and flaky-r1 once exactly in an attempt whose id ends in -1 |
| RewindAttempt.CompletesExactly | internal/engine/run.go:752-830 | a taken plan has a completing interleaving exactly when its target is offset zero and the service can handle the primary event |
| ControlledShape.Record | internal/engine/controlled.go:100-157 | the loop stops at the first step that controlled runs do not allow, and otherwise keeps the last step of every tuple in each phase |
| ControlledShape.AllowedExactly | internal/engine/controlled.go:100-152 | which steps controlled runs allow, action by action |
| ControlledShape.PublicationSelectors | internal/engine/controlled.go:233-247 | finds the tuples of the two publications, whatever the iteration order, exactly when both exist |
| ControlledShape.ValidateControlledShape | internal/engine/controlled.go:185-231 | accepts exactly the shape that the mode asks for |
| ControlledShape.CompileControlled | internal/engine/controlled.go:97-182 | takes a plan exactly when every step is allowed and the plan is well shaped: counts, observations, exact chains, one aggregate, mode, bindings |
| ControlledShape.AcceptedPublications | internal/engine/controlled.go:155-177 | an accepted plan publishes two events of one aggregate in two steps to partition 0, on a topic each or under different ids |
| ControlledShape.AcceptedShape | internal/engine/controlled.go:159-231 | an accepted plan arms, awaits and releases the same two tuples, those of its publications, and has the topics, versions and clock steps of its mode |
| ControlledPlan.BuildControlledPlan | internal/engine/controlled.go:56-183 | reports the first obstacle in the control block, the services, the probe, the clock or the order of the steps; otherwise takes exactly the well-shaped plan of the ordered steps with their strict ancestors |
| ControlledPlan.PlanIgnoresAuthoring | internal/engine/controlled.go:81-91 | two authored orders of the same steps give plans with the same order and the same ancestors |
| ControlledShape.RecordedLifecycle | internal/engine/controlled.go:165-175 | in every linear extension the recorded steps of a tuple arm, publish, block and release in turn |
| ControlledShape.ModeOrder | internal/engine/controlled.go:191-220 | in every linear extension the mode's extra order holds between the recorded steps |
| ControlledShape.CrossStreamBlocksBoth | internal/engine/controlled.go:199-206 | both handlers block before either release in every linear extension exactly when the awaits and releases that a later step shadows are ordered too |
| EarlyRelease.AcceptedPlanMayReleaseEarly | internal/engine/controlled.go:199-206 | a concrete plan that validator and engine take and that, in the order in which the engine runs it, releases one handler before the other blocks |
| Reduction.CloseOver | internal/minimize/reducer.go:267-282 | the fixpoint removes exactly the seeds and the steps with a seed among their ancestors |
| Reduction.PruneEvents | internal/minimize/reducer.go:313-325 | keeps exactly the published events, unchanged |
| Reduction.RemoveClosure | internal/minimize/reducer.go:267-293 | the whole transform: surviving steps and pruned events |
| Reduction.RemovalIsExact | internal/minimize/reducer.go:149-172 | which steps and which events survive, stated by ancestors and publications |
| Reduction.SurvivorsKeepOrder | internal/minimize/reducer.go:285-290 | the survivors are steps at strictly increasing positions |
| Reduction.SurvivorsAreWellFormed | internal/minimize/reducer.go:267-293 | the survivors are dependency-closed and acyclic whenever the steps were |
| Proposals.OptionalStepProposals | internal/minimize/reducer.go:143-177 | one proposal per optional step, in order |
| Proposals.OptionalChunkProposals | internal/minimize/reducer.go:179-201 | one proposal per maximal run of at least two optional steps, in order |
| Proposals.HierarchicalProposals | internal/minimize/reducer.go:119-140 | all kinds in the declared order, the first of every scenario |
| Proposals.HierarchicalIsComplete | internal/minimize/reducer.go:119-265 | every scenario of the five kinds is proposed, once, and nothing else |
| ProposalOrder.HierarchicalInOrder | internal/minimize/reducer.go:119-140 | steps, chunks, faults, fields and boundaries are offered in this order, and a scenario as the first kind that gives it |
| ProposalOrder.StepsInOrder | internal/minimize/reducer.go:143-177 | the step proposals are those of the optional steps at ascending positions |
| ProposalOrder.ChunksInOrder | internal/minimize/reducer.go:179-201 | the chunks start at ascending positions |
| ProposalOrder.FaultsInOrder | internal/minimize/reducer.go:203-213 | the fault proposals are those of the optional faults at ascending positions |
| ProposalOrder.AllFieldsAscend | internal/minimize/reducer.go:215-255 | fields are taken by ascending event name and key |
| ProposalOrder.FieldsProposed | internal/minimize/reducer.go:215-227 | one removal for each field, in the order of the fields |
| ProposalOrder.BoundariesProposed | internal/minimize/reducer.go:229-255 | the replacements go through the fields in order and at each through its boundaries in order |
| ProposalOrder.BoundariesMean | internal/minimize/reducer.go:229-265 | the boundaries of a text are the empty one, those of a number 0, 1 and -1 in this order, but for the value itself |
| ProposalOrder.ProposalChanges | internal/minimize/reducer.go:203-255 | a field proposal changes that field alone, and a fault proposal removes an optional rewind, stop, arm or release |
| ReductionMeasure.ProposalShrinks | internal/minimize/reducer.go:143-265 | every proposal is lexicographically smaller in steps, fields and nonempty strings, except a numeric replacement, which leaves all three |
| ReductionMeasure.ProposalIsWellFormed | internal/minimize/reducer.go:119-265 | no proposal leaves an unresolved dependency or makes a cycle |
| ReductionMeasure.NeededSurvives | internal/minimize/reducer.go:143-213 | no proposal removes a step that is not optional and depends on nothing optional |
| Reducer.ScanProposals | internal/minimize/reducer.go:73-104 | one pass over the proposals: budget checks, cache, verdict, as the scan function |
| Reducer.Reduce | internal/minimize/reducer.go:56-116 | on every run that stops, returns the state in which it does, with its summary |
| Reducer.StoppedRun | internal/minimize/reducer.go:69-115 | for any predicate the result is the original or was judged the same failure; trials equal cached verdicts, stay in the budget and ask no scenario twice; the budget is reported exhausted only when the trials or the time are used up, and the run complete only when every proposal of the final scenario was judged otherwise; minimality is claimed exactly when it is complete and nothing was unresolved |
| Reducer.SummaryCounts | internal/minimize/reducer.go:56-116 | as many accepted transforms as rounds before the last; accepted and rejected together are trials and cache hits together; sizes before and after |
| Reducer.ProvenIsMinimal | internal/minimize/reducer.go:110-112 | a claim of minimality means that every proposal of the final scenario was asked and judged to pass |
| Reducer.ReachedIsWellFormed | internal/minimize/reducer.go:71-105 | every scenario a run accepts stays closed and acyclic, keeps the needed steps, and keeps the authored order |
| ReducerHalting.DeadlineHalts | internal/minimize/reducer.go:73-77 | a clock that passes the deadline for good makes the loop halt, for every predicate, budget and scenario |
| ReducerHalting.NumberMaySpin | internal/minimize/reducer.go:73-92 | with one numeric field some predicate keeps the loop accepting forever from the cache, for every trial budget above a fixed pool |
| ReducerHalting.HaltsExactlyWithoutNumbers | internal/minimize/reducer.go:71-105 | without a deadline the loop halts for every predicate and every positive trial budget exactly when no field is a number, and exactly then without a budget too |
| Pointers.EscapeRoundTrip | internal/observe/compare.go:299-303 | unescaping inverts escaping (section 4 of RFC 6901) |
| Pointers.PointerRoundTrip | internal/observe/normalize.go:154-160 | the tokens read from a rendered pointer are the rendered ones, for any tokens |
| PointerWalks.EscapeByCharacter | internal/observe/compare.go:299-303 | escaping turns a tilde into ~0, a slash into ~1 and leaves any other character |
| Pointers.ResolvePointer | internal/observe/normalize.go:154-190 | the walk finds the value that the tokens select, or tells a missing place from an invalid position |
| PointerWalks.AtoiMeans | internal/observe/normalize.go:170-182 | a position is read from a decimal numeral with at most one sign, and from nothing else |
| PointerWalks.WalkFails | internal/observe/normalize.go:154-190 | a place is missing exactly where a field, an element or a container is, and invalid exactly at a token of an array that is no position |
| Comparison.NoDifferencesIffEqual | internal/observe/compare.go:60-133 | no differences exactly when the documents are equal |
| Comparison.SwapSwapsSides | internal/observe/compare.go:60-133 | swapping the documents swaps the two sides of every difference at the same pointers, in the same order |
| ComparisonPointers.PointersResolve | internal/observe/compare.go:60-133 | every pointer resolves to what is reported: both values, both lengths, or one value and nothing |
| ComparisonPointers.PointersAreDistinct | internal/observe/compare.go:60-133 | no two differences have the same pointer |
| ReportedDifferences.ReportIsExact | internal/observe/compare.go:60-133 | a difference is reported exactly if, at the end of a path through objects or arrays on both sides, two values differ in kind or as scalars, two arrays in length, or two objects in a field that one of them lacks |
| ReportOrder.ReportInOrder | internal/observe/compare.go:60-133 | differences come in document order: fields by name, items by position, the length of an array after its items |
| Records.CompareSet | internal/observe/compare.go:135-194 | the counting maps yield the rows of the values whose counts differ, by canonical text |
| Records.SetDifferencesMean | internal/observe/compare.go:135-194 | exactly the values with differing counts are reported; none exactly when the multisets, or the sets, coincide |
| KeyedRecords.CompareKeyed | internal/observe/compare.go:196-265 | fails exactly on a record without a key or a repeated key; otherwise compares the records under each key |
| KeyedRecords.KeyedDifferencesMean | internal/observe/compare.go:196-265 | nothing is reported exactly when both arrays hold the same records in whatever order |
| KeyedReport.KeyedReportIsExact | internal/observe/compare.go:196-265 | a row is reported exactly if it is a difference of the two records under its key, or one array has no record there and the other shows its own against null |
| KeyedReport.KeyedReportAscends | internal/observe/compare.go:230-262 | the rows come by ascending key |
| KeyedRecords.StableOrder | internal/observe/normalize.go:95-143 | fails exactly on a record without its keys or a repeated composite key; otherwise orders by key and tells whether anything moved |
| KeyedRecords.StableOrderIsIdempotent | internal/observe/normalize.go:95-143 | ordering twice changes nothing |
| KeyedRecords.StablyOrderedAgree | internal/observe/normalize.go:95-143 | two orderings agree exactly when the records are the same |
| KeyedRecords.OrderedAgreesWithMultiset | internal/observe/normalize.go:95-143 | ordered comparison after stable ordering agrees with multiset comparison before it |
| Documents.WalkPut | internal/observe/normalize.go:192-210 | a replaced place resolves to the new value |
| Documents.PutKeepsApart | internal/observe/normalize.go:192-210 | a replacement leaves every path that parts from it unchanged, however positions are spelled |
| Documents.DeleteKeepsApart | internal/observe/normalize.go:212-222 | so does a removal |
| Normalization.Normalize | internal/observe/normalize.go:19-56 | stable orders first, then the other rules as declared, with one audit entry each |
| RuleEffects.RuleEffect | internal/observe/normalize.go:58-152 | for every kind of rule when it fails, what it leaves at its place, when it tells of an effect, and that places that part from it stay |
| RuleEffects.ArrangedMeans | internal/observe/normalize.go:30-33 | the stable orders come first; both classes of rules keep their declared order |
| RuleEffects.PassIsTrace | internal/observe/normalize.go:34-55 | every rule is applied to what the one before has left, with its entry in the audit, up to the first that fails |
| Normalization.AppliedIsSettled | internal/observe/normalize.go:58-152 | every rule by itself is idempotent |
| NormalizationTwice.IndependentRulesAreIdempotent | internal/observe/normalize.go:19-56 | in a list of any length, rules none of which writes to the place of an earlier one, moves the records above it or edits its records' keys below it normalize idempotently, a second pass having no effect at all |
| NormalizationTwice.RemovedOrderKeyIsNotIdempotent | BUILD_PLAN.md:733 | the documented promise fails for rules that remove an order key: the second pass is rejected |
| RulePairs.SafePair | internal/observe/normalize.go:19-152 | two rules that do not conflict normalize every document so that a second pass changes nothing, though either may undo the other in between |
| CanonicalText.MarshalledIsJsonText | internal/observe/model.go:162-178 | an encoding as canonical JSON has the properties of its texts that the conflicts rest on |
| OppositeOrders.OppositePair | internal/observe/normalize.go:95-143 | for every list of order keys there are two records that a stable order by them puts the other way than their canonical texts |
| RuleConflicts.PairIsIdempotentExactly | BUILD_PLAN.md:733 | two rules of any kinds at any paths, in either order, normalize every document idempotently exactly when they do not conflict: a condition on kinds, keys, tokens and paths |
| Projector.StepKeepsInv | examples/order-lifecycle/services/fulfillment-projector/main.go:112-198 | every step, crash, lost acknowledgement and rewind keeps the ledger, the reservations and the consumer's position consistent |
| Projector.RunKeepsInv | examples/order-lifecycle/services/fulfillment-projector/main.go:112-198 | over every run the guarded variant holds exactly one reservation per processed event id, the unguarded one per delivery |
| Projector.VariantsReserve | examples/order-lifecycle/services/fulfillment-projector/main.go:176-187 | over every run the baseline, and flaky-r1 in an attempt whose id ends in -1, hold one reservation per processed event id; candidate-r1, and flaky-r1 otherwise, one per delivery |
| Projector.StepKeepsCoverage | internal/broker/admin.go:264-304 | a step keeps everything below the committed offset processed exactly when it is no accepted rewind past the greatest offset in the ledger |
| Projector.CoveredExactlyWhenReached | internal/broker/admin.go:264-304 | over a whole run everything below the committed offset is processed at every point exactly when no rewind goes past the greatest offset in the ledger |
| Projector.ForwardRewindSkipsRecords | internal/broker/admin.go:264-304 | on an initialized group a rewind past records that no one processed is accepted |
| Projector.RewindingBackKeepsCoverage | internal/engine/run.go:764-800 | as long as every rewind goes to the committed offset or before it, everything below the committed offset is processed at every point of the run |
| Projector.LoopDelivers | examples/order-lifecycle/services/fulfillment-projector/main.go:112-140 | an undisturbed consumer delivers the rest of the log once and in order |
| Projector.RewindRedelivers | internal/engine/run.go:764-800 | after a rewind and restart exactly the records from the target on are delivered again; the guard leaves the reservations alone |
| ProjectorStore.Database.ProcessRecord | examples/order-lifecycle/services/fulfillment-projector/main.go:142-198 | the transaction records the delivery of a valid record always and, by variant and attempt id, one more reservation or none, or it changes nothing |
| ProjectorStore.Group.Rewind | internal/broker/admin.go:264-304 | moves the committed offset to the target exactly for an empty group with a committed offset and a target inside the log |
| ProjectorStore.Group.InitializeEmptyGroupAtZero | internal/broker/admin.go:226-262 | commits offset zero exactly for an empty group and an empty log |
| ProjectorStore.ConsumeOne | examples/order-lifecycle/services/fulfillment-projector/main.go:119-139 | one turn of the loop performs the steps of the turn, or those up to the transaction, commit or confirmation that fails |
| Transition.RedeliveryIsHarmless | examples/order-lifecycle/services/state-workflow/transition.go:33-96 | under every variant an immediate redelivery leaves the state alone, except that an applied cancellation is then refused |
| Transition.RefusedExactly | examples/order-lifecycle/services/state-workflow/transition.go:33-96 | exactly which events are refused |
| Transition.IgnoredExactly | examples/order-lifecycle/services/state-workflow/transition.go:50-92 | exactly which events are ignored as stale or late, and that these move the watermark only |
| Transition.UpdatesEndAtHighest | examples/order-lifecycle/services/state-workflow/transition.go:37-60 | from a fresh or a loaded aggregate any order and any redelivery of updates ends at the highest version with the watermark at the latest delivery |
| Transition.FreshUpdatesEnd | examples/order-lifecycle/services/state-workflow/transition.go:37-60 | updates alone leave a new aggregate unpaid and unreserved, at the status of the highest version |
| Transition.UpdatesAreConfluent | examples/order-lifecycle/services/state-workflow/transition.go:37-60 | from a fresh or a loaded aggregate the same updates in any order and number end alike but for the watermark, and in the same state when the delivery times are the same too |
| Transition.StaleCandidateEndsAtLast | examples/order-lifecycle/services/state-workflow/transition.go:54 | the candidate-r3 variant accepts every update and ends at the last one delivered |
| Transition.ConfirmationsEnd | examples/order-lifecycle/services/state-workflow/transition.go:37-80 | flags, version, status and watermark after any mix of payments and reservations, from a fresh or a loaded aggregate |
| Transition.FreshConfirmationsEnd | examples/order-lifecycle/services/state-workflow/transition.go:37-80 | from the first event on the flags tell what was confirmed, and the status is ready exactly once both are |
| Transition.ConfirmationsAreConfluent | examples/order-lifecycle/services/state-workflow/transition.go:37-80 | from a fresh or a loaded aggregate the same payments and reservations in any order and number end alike but for the watermark and the last event time, and but for the latter when the delivery times are the same too |
| Transition.CrossStreamCandidateForgets | examples/order-lifecycle/services/state-workflow/transition.go:61-80 | after any payments and reservations the candidate-r5 variant differs from the baseline in the status only, and there exactly when a payment comes last although the stock is reserved |
| Transition.CancellationsEnd | examples/order-lifecycle/services/state-workflow/transition.go:81-92 | cancellations are taken exactly if each is newer than the state it meets; the aggregate is then cancelled by the last one that is not late, at its version and time, and untouched but for the watermark if there is none |
| Transition.LateCandidateCancels | examples/order-lifecycle/services/state-workflow/transition.go:81-92 | the candidate-r6 variant takes ascending cancellations and is cancelled by the last one, late or not |
| Transition.LateCandidateDiffers | examples/order-lifecycle/services/state-workflow/transition.go:81-92 | where candidate-r6 takes the cancellations it ends cancelled by the same event as every other variant exactly if the last one is not late |
| Transition.LateCandidateStep | examples/order-lifecycle/services/state-workflow/transition.go:81-92 | on any event candidate-r6 goes another way exactly at a newer cancellation that is late |
| Transition.UpdateAndPaymentCommuteExactly | examples/order-lifecycle/services/state-workflow/transition.go:49-71 | from any state an update and a payment commute on the status exactly when the update is stale or sets the status a payment sets, and on the whole state exactly when moreover an applied update has the payment's time |
| Journal.Read | internal/runlog/journal.go:131-161 | reading splits, drops the truncated last line, and decodes contiguous events or rejects |
| Journal.PrefixReadsBack | internal/runlog/journal.go:131-161 | any byte prefix reads back as exactly the events whose lines are complete, truncated exactly inside a line |
| Journal.AppendAfterFailure | internal/runlog/journal.go:87-114 | what a journal reads as after a failed append that left any n bytes of its line and a successful one: whole for no byte, unreadable for good for all of them, the two lines read as one in between |
| Journal.FailedAppendDecides | internal/runlog/journal.go:87-161 | with a decoder that reads one value of a line, n decides: the next event for no byte, the lost event in its stead for all but the newline, and otherwise a journal that stays unreadable |
| Journal.UnreadableStays | internal/runlog/journal.go:131-161 | no later byte makes an unreadable journal readable |
| RunJournal.RunJournal.Append | internal/runlog/journal.go:87-114 | a successful append adds one numbered line; a failed one leaves any part of it and the old number |
| RunJournal.RunJournal.Journaled | internal/engine/run.go:987-1006 | appends the two numbered entries of the operation under one id, or as many as could be appended, and succeeds exactly when both were and the operation did |
| RunJournal.TerminalStateReadsBack | internal/engine/run.go:1163-1175 | what readers make of a run: an infrastructure error is told even of an interrupted one, a pass and a regression are complete unless interrupted, other known classifications are themselves, and anything else is not authoritative |
| RunJournal.PaddedReadsBack | internal/runlog/journal.go:68-85 | the number in an operation id is read back from it, so ids of different entries differ; it has at least six digits |
| RunJournal.FinalizeRun | internal/engine/run.go:1118-1161 | a run that ends has journaled four reports, the result and the checksums, each between its entries, and then the terminal state, once and last; it reads back as the run was classified |
| RunJournal.OnlyWholeJournalIsAuthoritative | internal/runlog/journal.go:167-178 | after any cut of a finalized journal the final state is authoritative exactly when nothing was cut |
| DuplicateKeys.RejectDuplicateKeys | internal/bundle/image.go:354-403 | the stack loop computes the scan of the tokens |
| DuplicateKeys.ScannerAgrees | internal/bundle/image.go:354-403 | the scanner accepts the tokens of any values exactly when no object in them repeats a name |
| DuplicateKeys.ScanMeans | internal/bundle/image.go:354-403 | on any tokens a name is rejected only if it was seen before, tokens are called unbalanced only at a closing one that nothing was opened for, and accepted only without one |

## Left out

- Docker, Kafka, PostgreSQL and HTTP: only their effect on an offset, a file or a row is modelled.
- Floating point: the statistics are over reals, so rounding, infinities and NaN do not occur; `finite` and the recomputation tolerances are not modelled.
- SchedulePlan.BuildRequests: does not model the request headers, identifiers and bodies, which are copied from the operation.
- SchedulePlan.BuildPlan: does not model the plan's digest.
- Workload.ValidateWorkload: models the rules on operations' identifiers and weights and on the schedule that the plan depends on, not the method, path, header, status, analysis and artifact-size rules, and not the order in which violations are sorted.
- Analysis.Analyze: `RecomputeAnalysis` and `ValidateAnalysis`, which run it again on recorded pairs, are not modelled.
- Gates.StepKeepsInv: handles and handler identities are fresh by assumption; the request decoding, authentication and the state query are not modelled.
- Probe.Probe.Enter: the wait itself is split off into the cancelling and waking steps; the mutex is the atomicity of each method.
- The logical clock of the probe and the bounded list of delivery receipts: single checks.
- Scenario steps: a step has exactly one action by its type, where the source counts optional pointers and reports any other number.
- Ancestors.DependencyAncestors: the report is a value of its own, where the source returns the step's id and so cannot report a cycle at a step with an empty id.
- FaultOrdering.ValidateFaultOrdering: for a tuple that two steps await, the rules look at the first authored one, as the source does.
- `validateServiceCycles`: the same guarded search as `CycleSearch` on another graph.
- ControlledShape.CompileControlled: the observations' rules and the digest of the run-time contract are not modelled, and an event's time is taken as parsed; the target, the clock and the order of the steps are `ControlledPlan.BuildControlledPlan`.
- RewindSafety.AcceptedPlanHasUnsafeOrder: about the rules alone; no run of the engine follows that order.
- RewindAttempt.RewindIsSafe: the observation queries, the schema fingerprints, the logs of the other publications and the cleanup are not modelled; the service is taken to consume the log and the group that the rewind names, and a waiting call to go on until its condition holds or the attempt fails.
- Reduction.CloseOver: one method for the two copies of the loop in the source.
- Proposals.HierarchicalProposals: descriptions are values rather than text; cloning through JSON is the identity, and integers are the reals they decode to.
- Reducer.Reduce: takes the number of rounds after which the run stops as a ghost, since a run need not stop; encoding errors of a scenario are not modelled.
- ReducerHalting.NumberMaySpin: the bound on the trial budget is a sufficient one.
- Comparison.NoDifferencesIffEqual: without tolerances. `Compare` refuses every applied rule that affected nothing, and a numeric tolerance always reports that it affected nothing, so no tolerance reaches the comparison by that way.
- ComparisonPointers.PointersResolve: a field that is absent on one side is shown as null there, as in the source.
- Pointers.ResolvePointer: a position too large for a 64-bit integer is missing rather than invalid.
- Normalization.Normalize: documents are values; the source edits a private decoded copy in place. Timestamps are recognised by a parameter.
- NormalizationTwice.IndependentRulesAreIdempotent: for lists of more than two rules a sufficient condition; for two rules `RuleConflicts.PairIsIdempotentExactly` has the exact one.
- RuleConflicts.PairIsIdempotentExactly: takes it that some timestamp sorts before the token that stands for one, as a digit does before the angle bracket or its escape.
- Projector.RunKeepsInv: one partition whose log starts at offset zero, one consumer at a time; `processFulfillment`, its output record and the rows' other columns are not modelled.
- ProjectorStore.Group.Rewind: the evidence it returns and the failures of the broker calls are not modelled.
- ProjectorStore.ConsumeOne: a transaction or a confirmation that is reported as failed has failed; the output record is not modelled.
- Transition.UpdatesEndAtHighest: event identifiers, which the transition does not look at, are not modelled, and zero stands for the zero time.
- Transition.ConfirmationsAreConfluent: the last event time does depend on the order.
- Journal.AppendAfterFailure: leaves open what two merged lines decode as, which `Journal.FailedAppendDecides` settles for a decoder that reads one value.
- Journal.Read: the schema version, timestamp and detail of an event are part of its encoding only; the journal starts from an empty file.
- RunJournal.RunJournal.Append: secret screening and encoding are one flag.
- DuplicateKeys.ScannerAgrees: token streams of well-formed values; malformed text is refused by the decoder before it reaches the scanner.
- Command line, rendering, bundles, evidence publication, security policy and single-field validators: easy or foreign.
