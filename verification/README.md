# Version solver model

A Dafny 4.11 model of the PubGrub-style version solver in `src/python/toolchain/satresolver`, of the graph walks
around it, and of the calendar ranges and index chunking in `src/python/curator/utils.py`.
`dafny verify dfyconfig.toml` checks everything.

## What is modelled

The solver keeps a log of assignments with decision levels, a cache of what the log says about each package, and a
growing store of incompatibilities. It propagates, analyses conflicts, backtracks, learns and decides.

* `Terms`, `Universes`, `Resolution`: the term algebra and its meaning over choices of a version or absence for each
  package; the package index, its facts and what a solution is; the resolution step and derivations.
* `Logs`, `Conflicts`, `Chains`, `Machine`: the log, conflict analysis on it and the chain of conflicts it goes through,
  and the solver as a state machine on values. One step is one iteration of its innermost loop. `Run(u, k)` is the
  state after `k` steps.
* `Invariants`, `Termination`, `Mergeable`, `Completeness`: what holds in every reachable state, why every run ends,
  why terms merge, and on which inputs a failure is always right.
* `Orders`, `Preferences`, `Choices`, `Overrides`: in which order the work is done and what stays on record, which
  package and which version each decision takes and that nothing superfluous is decided, one choice as a relation
  between states, and what overrides mean.
* `PartialSolutions`, `Graphs`, `Configs`, `Resolvers`, `ResultGraphs`: the classes with their mutable fields and loops,
  proved to follow the specifications above. `EntryPoints` puts them together.
* `Traces`, `FalseFailures`, `MergeErrors`, `SelfDependencies`: three runs followed step by step.
* `Chunks`, `DateRanges`: `chunk_index_list`, `date_range` and the helpers they use.

## Main results

1. Every run ends (`Termination.RunEnds`), and the imperative solver is the run of the machine (`Resolvers.Resolver.Solve`).
2. Success means a valid solution (`Invariants.SolvedIsValid`).
3. A conflict always leads to a failure or to a strictly lower level with exactly one open term in the root cause
   (`Conflicts.ResolveOk`), or to the "mutually exclusive terms" error, which is announced as a bug. The error can occur:
   on the input in `MergeErrors` it is raised although a solution exists, and for terms that do not exclude each other.
   `Resolution.MergeFails` says exactly which terms raise it. It never occurs when every dependency accepts an existing
   version (`Mergeable.RunNeverBreaks`). That is sufficient, not necessary.
4. A learned incompatibility is promised to be "guaranteed to be true" (core.py:195-200). That is false: `difference`
   forgets that a package may be absent. A step follows from its parents if and only if it is not lossy, or its result
   cannot be broken at all (`Resolution.StepImpliedIffNotLossy`). On the input in `FalseFailures` the solver fails although a solution exists.
   A failure is right whenever its derivation has no lossy step, and on every forgiving input: each package is mandatory
   or has at most one version that has dependencies or cannot be fetched (`Completeness.RunDecides`). That can be read
   off the input. It is sufficient and not necessary: a lossy step may still lead to a correct failure.
5. Every decision of every reachable state was about the required package with the fewest remaining versions, and took the
   newest of them, or the oldest for a downgrade (`Preferences.RunPreferred`). Where no version has dependencies the
   result of a successful resolve is therefore known in advance (`Preferences.NewestWins`). On every forgiving input a
   solution contains only packages that it needs (`Preferences.NothingSuperfluous`).
6. The level to return to is the lowest one on which the root cause already has one open term, and analysis ends at the
   first conflict of its chain for which that level is lower than that of the satisfier (`Conflicts.LevelIsLowest`,
   `Chains.ResolveFollowsChain`).
7. Nothing that was recorded is forgotten (`Orders.RecordGrows`), the reason of every derivation is on record
   (`Orders.RunOnRecord`), and every change of the log is followed up once, in the order of the changes
   (`Orders.ChangesAreFollowedUp`).
8. Overrides are the same as a package index in which every requirement on a pinned package asks for the pin
   (`Overrides.OverridesArePins`).
9. A version may depend on its own package. If it accepts itself, and all dependencies on that package are satisfiable,
   nothing is lost. If it does not accept itself, success can be wrong as well (`SelfDependencies.SolvedWithoutSolution`).
   The source does not check this.

## Conventions

* Package names and versions are integers, because the solver only compares them. A requirement dictionary is a
  sequence of (name, versions) pairs in dictionary order. The index is a pair of maps; a missing key stands for
  PackageNotFoundError.
* The cause of a learned incompatibility also records the resolved term and its satisfier. The source only
  logs them. They make "no step was lossy" a property of the failure itself.
* The phases Broken and Wedged stand for the "mutually exclusive terms" error and for a missing satisfier. Wedged is proved
  unreachable.
* `time.time()` is the parameter `now`. The universe and the log of the specification are ghost arguments where a
  method needs them only for its proof.

## Model

| member | source | states |
|---|---|---|
| `EntryPoints.ResolveRequirements` | src/python/toolchain/satresolver/core.py:82-99 | The outcome is that of the final state of the run on the reachable packages: the decided versions exactly for success, the failure of a resolution error, or exclusive terms. A returned solution has one version per package, all offered by the index, and grants every requirement and every dependency of every decided version, pins replacing what is asked for. Where no version has dependencies exactly the required packages are decided, each in its greatest eligible version, or the least one for a downgrade. On a forgiving input every decided package is required, directly or through decided versions. A failure is derived from the facts, and there is then no solution if its derivation has no lossy step or the input is forgiving; the "mutually exclusive terms" error needs a dependency that accepts no existing version. The method is total, so solving always ends. A version may depend on its own package if it accepts itself and all dependencies on that package are satisfiable. |
| `EntryPoints.OutcomeIsRight` | src/python/toolchain/satresolver/core.py:82-99 | All of this follows from the end of the run alone. |
| `EntryPoints.RunToEnd` | src/python/toolchain/satresolver/core.py:82-99 | Building the graph and running the solver reports the final state of the run on the reachable packages. |
| `EntryPoints.ResolvesIsValid` | src/python/toolchain/satresolver/config.py:81-96 | A choice is a solution exactly when it takes versions that the index offers and has an asked version for every requirement: the pin if there is one, else the versions of the requirement. |
| `EntryPoints.NewestIsTaken` | src/python/toolchain/satresolver/config.py:170-182 | Without dependencies a successful run decides exactly the required packages, each in its greatest eligible version, or the least one for a downgrade. |
| `EntryPoints.DecidedAreNeeded` | src/python/toolchain/satresolver/core.py:280-337 | On a forgiving input every decided package is reached from the requirements through index entries of decided versions. |
| `EntryPoints.FinalMeaning` | src/python/toolchain/satresolver/core.py:92-99 | The end of every run, read against all choices of versions. |
| `EntryPoints.Restricted` | src/python/toolchain/satresolver/config.py:37 | Looking only at the packages that the walk reaches does not change which choices are solutions. |
| `EntryPoints.ConditionsRestricted` | src/python/toolchain/satresolver/config.py:37 | And it keeps the conditions on the input. |
| `EntryPoints.DerivableExtended` | src/python/toolchain/satresolver/graph.py:85-96 | What is derived from the reachable packages is derived from the whole index. |
| `EntryPoints.ResolvedGraphIsClosed` | src/python/toolchain/satresolver/core.py:342-353 | Every edge of the result graph of a solution stays inside it, and every direct dependency is in it. |
| `EntryPoints.ResolvedGraph` | src/python/toolchain/satresolver/core.py:342-353 | For a solution every `result[dep]` lookup is defined. The keys of the result graph are exactly the decided versions. The list of a version has one entry for each entry of its index record; it holds exactly the decided versions of the packages named there, with names ascending. |
| `EntryPoints.SortedTargets` | src/python/toolchain/satresolver/core.py:347 | The sorted lookups of a list of requirements: as many entries, exactly the decided versions of the required packages, names ascending. |
| `EntryPoints.PrintSolution` | src/python/toolchain/satresolver/core.py:342-356 | The graph printed is the one of the index records of the decided versions. Every reachable package is expanded exactly once, where it first appears at its minimum depth, in nested order below the direct dependencies with names ascending. The number of lines is the number of requirements plus the number of index entries of the expanded packages. |
| `Terms.SatisfiesIsImplication` | src/python/toolchain/satresolver/term.py:147-162 | `satisfies` is implication: it holds exactly when every choice (a version, or absence) allowed by the first term is allowed by the second. |
| `Terms.IntersectIsConjunction` | src/python/toolchain/satresolver/term.py:172-191 | `intersect` is conjunction, and is null exactly on a contradiction or when both terms are negative and exclude nothing. |
| `Terms.InverseIsNegation` | src/python/toolchain/satresolver/term.py:164-170 | `inverse` is complement within all choices, and its own inverse. |
| `Terms.DifferenceIsExactUnlessLossy` | src/python/toolchain/satresolver/term.py:193-199 | `difference` is set difference if and only if it is not "negative minus positive"; in that case it drops exactly the choice "absent". |
| `Terms.NegationNarrows` | src/python/toolchain/satresolver/core.py:146-154 | Negating a term that is neither implied nor contradicted narrows what is known, strictly, and not to nothing. |
| `Terms.MeaningMembers` | src/python/toolchain/satresolver/term.py:136-141 | The choices a term allows are the versions in `allowed_versions`, and absence exactly when the term is negative. |
| `Universes.FactsHoldInSolutions` | src/python/toolchain/satresolver/config.py:66-96 | Every incompatibility taken from the package index (dependency, override, no versions, not found) is respected by every valid solution. |
| `Universes.FactIsGood` | src/python/toolchain/satresolver/config.py:81-96 | Facts about dependencies on other packages speak about known packages, once per package. |
| `Overrides.OverridesArePins` | src/python/toolchain/satresolver/config.py:81-96 | A choice is a solution exactly when it is one of the universe without overrides in which every requirement on a pinned package, of the root or of a version, asks for the pin. |
| `Overrides.FactsArePinned` | src/python/toolchain/satresolver/config.py:86-96 | Each fact has the terms of the fact of the rewritten requirement; its cause is the override cause exactly when the package is pinned. |
| `Overrides.PinsHold` | src/python/toolchain/satresolver/config.py:86-88 | In a solution every pinned package that the root or a chosen version depends on is chosen in its pin. |
| `Resolution.MergeMeaning` | src/python/toolchain/satresolver/core.py:177-190 | `_merge_terms` leaves one term for each subject mentioned and keeps the joint meaning of the input. |
| `Resolution.MergeFails` | src/python/toolchain/satresolver/core.py:177-190 | The "mutually exclusive terms" error is raised exactly when some package has at least two terms of which the first two are negative and exclude nothing, or which no choice meets together. |
| `Resolution.ClashAfterMerge` | src/python/toolchain/satresolver/core.py:186-189 | Merging the first two terms of a package does not change whether its terms raise the error. |
| `Resolution.ResolventMeaning` | src/python/toolchain/satresolver/core.py:192-230 | What the new incompatibility forbids, exactly: the remaining terms of both parents together, where the resolved package is not picked by the satisfier, or is picked by the resolved term, or is absent in a lossy step. |
| `Resolution.ExactStepIsImplied` | src/python/toolchain/satresolver/core.py:192-230 | A choice that breaks the new incompatibility breaks one of its parents, if the step is not lossy or the choice contains the resolved package. |
| `Resolution.StepImpliedIffNotLossy` | src/python/toolchain/satresolver/core.py:192-230 | The new incompatibility follows from its two parents if and only if the step is not lossy (a negative satisfier of a positive term), or the result contains a term that no choice meets. |
| `Resolution.LossyStepIsNotImplied` | src/python/toolchain/satresolver/term.py:193-199 | For every lossy step whose result some choice can break there is a choice that breaks it and neither parent. |
| `Resolution.HarmlessDerivationHolds` | src/python/toolchain/satresolver/core.py:195-200 | Every solution respects every incompatibility whose derivation is lossy only on packages that all solutions contain. |
| `Resolution.HarmlessFailureMeansNoSolution` | src/python/toolchain/satresolver/core.py:262-264 | A failure with such a derivation refutes every choice. |
| `Resolution.ExactIsHarmless` | src/python/toolchain/satresolver/core.py:192-230 | A derivation without lossy steps is one of these. |
| `Completeness.MandatoryIsUnavoidable` | src/python/toolchain/satresolver/config.py:81-96 | A package that is required directly, or by every usable version of such a package, is in every solution. |
| `Completeness.DerivedNameTrouble` | src/python/toolchain/satresolver/core.py:192-230 | Positive terms of derived incompatibilities name only versions that have dependencies or cannot be fetched. |
| `Completeness.ForgivingIsHarmless` | src/python/toolchain/satresolver/core.py:192-230 | If each package is mandatory or has at most one such version, no derivation does harm. |
| `Completeness.RunDecides` | src/python/toolchain/satresolver/core.py:92-99 | On such inputs, with satisfiable dependencies, every run ends in success exactly when there is a solution. |
| `FalseFailures.FailureDespiteSolution` | src/python/toolchain/satresolver/core.py:232-264 | A concrete input with a solution, two packages and satisfiable dependencies on which the run raises the resolution error. |
| `FalseFailures.ForgetsAbsence` | src/python/toolchain/satresolver/core.py:201-219 | The step of that run that loses the absent package. |
| `MergeErrors.BrokenDespiteSolution` | src/python/toolchain/satresolver/core.py:177-190 | A concrete input with a solution on which the run raises the "mutually exclusive terms" error: satisfiable dependencies are needed for its absence. |
| `MergeErrors.SameTermTwice` | src/python/toolchain/satresolver/core.py:186-188 | The terms that raise it there are one term twice, and every choice meets it. |
| `Logs.LevelsRise` | src/python/toolchain/satresolver/partial_solution.py:51-74 | Decision levels never decrease along the log. |
| `Logs.DecisionCount` | src/python/toolchain/satresolver/partial_solution.py:51-65 | The level of an entry is the number of decisions up to it, so the k-th decision has level k. |
| `Logs.DecidedIsFinal` | src/python/toolchain/satresolver/partial_solution.py:56-74 | A decided package gets no later assignment. |
| `Logs.CutKeepsFirstDecisions` | src/python/toolchain/satresolver/partial_solution.py:83-95 | Backtracking to level L, between 1 and the current level, keeps exactly the decisions up to L, one per level. |
| `Logs.CutEndsBeforeDecision` | src/python/toolchain/satresolver/partial_solution.py:90-91 | The cut is a prefix of the log that ends just before a decision. |
| `Logs.TermsNarrow` | src/python/toolchain/satresolver/partial_solution.py:76-81 | What the log says about a package only narrows, and is never the impossible value. |
| `Logs.SatMeans` | src/python/toolchain/satresolver/partial_solution.py:115-118 | A prefix satisfies a term exactly when everything it still allows for the package is allowed by the term. |
| `Logs.SatStays` | src/python/toolchain/satresolver/partial_solution.py:102-118 | Once a prefix satisfies a term, all longer prefixes do. |
| `Logs.DecisionStays` | src/python/toolchain/satresolver/partial_solution.py:56-65 | After a decision the log says exactly that decision about the package. |
| `Logs.GoodPrefix` | src/python/toolchain/satresolver/partial_solution.py:83-100 | Soundness of the log (levels, reasons, narrowing) survives backtracking. |
| `Conflicts.Satisfier` | src/python/toolchain/satresolver/partial_solution.py:102-113 | The first position whose prefix implies the term; no earlier prefix does. |
| `Conflicts.SortTerms` | src/python/toolchain/satresolver/core.py:156-160 | Terms with their satisfiers: the same terms, in ascending order of index. |
| `Conflicts.PartialSatisfier` | src/python/toolchain/satresolver/core.py:169-175 | What the most recent satisfier leaves open of its term was excluded strictly before it, so the partial satisfier always exists. |
| `Conflicts.PreviousLevelSucceeds` | src/python/toolchain/satresolver/core.py:162-175 | The previous decision level exists and is exactly the highest level of the satisfiers of the other terms and of the inverse of what the most recent satisfier leaves open, or 1 if that is higher. |
| `Conflicts.AnalyseSucceeds` | src/python/toolchain/satresolver/core.py:239-243 | On a sound log one round of analysis always succeeds: its term has the strictly latest satisfier, all others are satisfied before it. |
| `Conflicts.RoundKeepsConflict` | src/python/toolchain/satresolver/core.py:192-230 | The new incompatibility is derivable and again satisfied, by assignments strictly before the satisfier just explained, whose cause is always an incompatibility. |
| `Conflicts.LossyIsContested` | src/python/toolchain/satresolver/core.py:215-217 | A lossy step always plays two different versions of one package against each other. |
| `Conflicts.LevelIsNotAbove` | src/python/toolchain/satresolver/core.py:247-257 | The level to return to is never above that of the most recent satisfier, and strictly below it when that is a decision. |
| `Conflicts.LevelIsLowest` | src/python/toolchain/satresolver/core.py:162-175 | That level is the lowest one from 1 on that supports the conflict: the log cut to any lower level misses one of these terms, the log cut to this level satisfies them all. |
| `Conflicts.SatAfterCut` | src/python/toolchain/satresolver/partial_solution.py:83-113 | The log cut to a level satisfies a term exactly when the satisfier of the term is not above that level. |
| `Conflicts.CutOpensOneTerm` | src/python/toolchain/satresolver/core.py:254-257 | After backtracking the root cause has exactly one term that is neither satisfied nor contradicted. |
| `Conflicts.ResolveOk` | src/python/toolchain/satresolver/core.py:232-264 | Conflict analysis always comes to a verdict: a failure derived from the facts, exclusive terms, or a root cause with exactly one open term at the lowest level that supports it, which is strictly below the current one. The satisfier index falls in every round. |
| `Chains.ResolveFollowsChain` | src/python/toolchain/satresolver/core.py:232-264 | The verdict is the end of a chain of conflicts, each the resolvent of the one before and the reason of its most recent satisfier; a conflict is resolved only if no lower level supports it, and the first one with a lower level is the root cause. |
| `SelfDependencies.TiedConflictStays` | src/python/toolchain/satresolver/core.py:247-257 | When one decision satisfies both terms of a conflict, for every log the analysis returns to the level it is on. |
| `SelfDependencies.SolvedWithoutSolution` | src/python/toolchain/satresolver/core.py:266-278 | A concrete input with a version that depends on its own package and does not accept itself, on which the run ends in success with decisions that are no solution: the reason for the condition on self-dependencies. |
| `Invariants.IdleIsQuiet` | src/python/toolchain/satresolver/core.py:121-154 | The fact of a version that depends on its own package and accepts itself never derives anything and never conflicts. |
| `Invariants.TermNotEmpty` | src/python/toolchain/satresolver/partial_solution.py:76-81 | Where all dependencies on a package are satisfiable, what the log says about it never rules out everything. |
| `Machine.PropagateOutcome` | src/python/toolchain/satresolver/core.py:121-154 | Conflict exactly when all terms are satisfied; a derivation only from exactly one open term; otherwise a term is contradicted or two are open. |
| `Machine.OneOpenIsDerived` | src/python/toolchain/satresolver/core.py:142-154 | With exactly one open term something is derived, and from that term. |
| `Machine.Best` | src/python/toolchain/satresolver/config.py:131-155 | The chosen package has the fewest usable versions among those its term allows and, among packages with as many, the smallest name. |
| `Machine.BestVersion` | src/python/toolchain/satresolver/config.py:170-182 | The newest valid version, or the oldest for a package marked for downgrade. |
| `Choices.ChooseOutcome` | src/python/toolchain/satresolver/core.py:280-337 | Solving ends when no required package is undecided. Otherwise the most constrained such package is scanned next: if no usable version is left, what the log asks for goes on record as a fact whose cause says whether the package has versions at all, and nothing is decided; else the best version is listed and decided, unless it is listed for the first time and a dependency is on its own package or is broken by what the log says already. |
| `Preferences.RunPreferred` | src/python/toolchain/satresolver/config.py:131-182 | In every reachable state every decision was about a required package, the one with the fewest remaining versions and then the smallest name among all undecided ones at that time, and took the newest of them, or the oldest for a downgrade. |
| `Preferences.NewestWins` | src/python/toolchain/satresolver/config.py:170-182 | If no usable version has dependencies and all packages are required, a successful run decides each package in its best version among those that all requirements accept. |
| `Preferences.LogAgrees` | src/python/toolchain/satresolver/core.py:121-154 | Every entry of the log of such a run agrees with that best choice. |
| `Preferences.NothingSuperfluous` | src/python/toolchain/satresolver/core.py:280-289 | On a forgiving input every decided package is required, directly or by decided versions. |
| `Preferences.NeededAgrees` | src/python/toolchain/satresolver/core.py:121-154 | The log of a run agrees with the needed part of its solution. |
| `Orders.FiledOnce` | src/python/toolchain/satresolver/core.py:101-104 | An incompatibility goes to the end of the list of each package that it mentions, once. |
| `Orders.FactsFiledInOrder` | src/python/toolchain/satresolver/core.py:325-327 | The facts of a version are filed under its package in the order of its dependencies. |
| `Orders.RunOnRecord` | src/python/toolchain/satresolver/core.py:254-257 | In every reachable state the reason of every derivation is on record under each package that it mentions, learned ones included. |
| `Orders.RecordGrows` | src/python/toolchain/satresolver/core.py:101-104 | Every list of every earlier state is a prefix of the same list later, and listed versions stay listed. |
| `Orders.ChangesAreFollowedUp` | src/python/toolchain/satresolver/core.py:106-119 | During a round of propagation the scans begun, followed by the queue, are the queue at the start followed by the changes of the log: each change is followed up once, in order. |
| `Invariants.AddFactsOk` | src/python/toolchain/satresolver/core.py:101-104 | Listing a version files each of its facts under its package. |
| `Invariants.DeriveIsGood` | src/python/toolchain/satresolver/partial_solution.py:67-74 | A derivation keeps the log sound: a valid reason with one term on its subject, all others satisfied earlier, and strict narrowing. |
| `Invariants.DecideIsGood` | src/python/toolchain/satresolver/partial_solution.py:56-65 | A decision keeps the log sound. |
| `Invariants.CutKeeps` | src/python/toolchain/satresolver/partial_solution.py:83-100 | Backtracking keeps the log sound and every remaining decision with its dependencies enforced. |
| `Invariants.LearnInv` | src/python/toolchain/satresolver/core.py:115-117 | After conflict resolution the propagation of the root cause always derives something, so only package names enter the work queue. |
| `Invariants.ExamineInv` | src/python/toolchain/satresolver/core.py:113-119 | One iteration of the propagation loop keeps the invariant. |
| `Invariants.ChooseInv` | src/python/toolchain/satresolver/core.py:280-337 | Choosing a package version keeps the invariant. |
| `Invariants.StepInv` | src/python/toolchain/satresolver/core.py:92-119 | Every step keeps the invariant. |
| `Invariants.RunInv` | src/python/toolchain/satresolver/core.py:92-119 | In every reachable state the log is sound, every stored incompatibility is derivable, every listed version has its facts on record, the dependencies of all decisions are enforced or still to be scanned, and the queue holds package names only. |
| `Invariants.SolvedIsValid` | src/python/toolchain/satresolver/core.py:286-289 | When nothing is left undecided the decisions are a valid solution. |
| `Invariants.RunOutcome` | src/python/toolchain/satresolver/core.py:92-99 | Every run that ends reports a valid solution, or a failure derived from the facts that refutes all choices if its derivation is harmless, or exclusive terms. |
| `Termination.PossibleShrinks` | src/python/toolchain/satresolver/core.py:121-154 | Each derivation strictly reduces the set of remaining possibilities. |
| `Termination.FirstDifferenceDecides` | src/python/toolchain/satresolver/core.py:92-99 | Positional numbers compare like the lexicographic order of their digits. |
| `Termination.DeriveLowersRank` | src/python/toolchain/satresolver/partial_solution.py:67-74 | A derivation lowers the rank: the vector of remaining possibilities per level, padded with a maximum. |
| `Termination.DecideLowersRank` | src/python/toolchain/satresolver/partial_solution.py:56-65 | A decision lowers the rank. |
| `Termination.BacktrackLowersRank` | src/python/toolchain/satresolver/core.py:247-257 | Backtracking together with the derivation that follows lowers the rank. |
| `Termination.StepDecreases` | src/python/toolchain/satresolver/core.py:92-119 | Every step of the solver lowers the lexicographic measure, including the steps that neither decide nor derive. |
| `Termination.RunEnds` | src/python/toolchain/satresolver/core.py:92-99 | From every point of every run on a finite universe a final state is reached. |
| `Mergeable.SatisfiedTermsMerge` | src/python/toolchain/satresolver/core.py:177-190 | Terms that each name an existing version, and that one sound log of such terms satisfies, merge. |
| `Mergeable.ResolveMerges` | src/python/toolchain/satresolver/core.py:232-264 | Conflict analysis on such terms and logs does not reach the "mutually exclusive terms" error. |
| `Mergeable.RunNeverBreaks` | src/python/toolchain/satresolver/core.py:187-188 | If every dependency accepts an existing version, all terms of all reachable states are of this kind and no run reaches the error. |
| `PartialSolutions.PartialSolution.constructor` | src/python/toolchain/satresolver/partial_solution.py:25-30 | An empty log with empty caches. |
| `PartialSolutions.PartialSolution.Decide` | src/python/toolchain/satresolver/partial_solution.py:56-65 | Appends a decision whose level is the number of decisions; the caches again agree with the log. |
| `PartialSolutions.PartialSolution.Derive` | src/python/toolchain/satresolver/partial_solution.py:67-74 | Appends a derivation on the current level; the caches again agree with the log. |
| `PartialSolutions.PartialSolution.Register` | src/python/toolchain/satresolver/partial_solution.py:76-81 | The cached term becomes the intersection with the new one. |
| `PartialSolutions.RegisteredMatches` | src/python/toolchain/satresolver/partial_solution.py:76-81 | The updated cache equals the intersection of all assignments of each package in the extended log. |
| `PartialSolutions.PartialSolution.PopAbove` | src/python/toolchain/satresolver/partial_solution.py:88-91 | Pops exactly the assignments above the level and collects their subjects. |
| `PartialSolutions.PartialSolution.Rebuild` | src/python/toolchain/satresolver/partial_solution.py:97-100 | Re-registering the remaining assignments makes the cache agree with the remaining log. |
| `PartialSolutions.PartialSolution.Backtrack` | src/python/toolchain/satresolver/partial_solution.py:83-100 | The log is cut to the level, both caches agree with it, and the decision level is the requested one. |
| `PartialSolutions.DroppedDecisions` | src/python/toolchain/satresolver/partial_solution.py:93-95 | Dropping decisions by subject drops exactly the decisions above the cut. |
| `PartialSolutions.PartialSolution.FindSatisfier` | src/python/toolchain/satresolver/partial_solution.py:102-113 | The first assignment whose prefix implies the term; none exactly when no prefix implies it; on a sound log there is one exactly when the cached `satisfies` is true. |
| `PartialSolutions.PartialSolution.SatisfiesTerm` | src/python/toolchain/satresolver/partial_solution.py:115-118 | The cached answer is the answer of the log. |
| `PartialSolutions.PartialSolution.IsIncompatible` | src/python/toolchain/satresolver/partial_solution.py:120-123 | The cached answer is the answer of the log. |
| `Resolvers.Resolver.SetupRoot` | src/python/toolchain/satresolver/core.py:75-80 | Root facts on record and root decided: the initial state of the machine. |
| `Resolvers.Resolver.AddIncompatibility` | src/python/toolchain/satresolver/core.py:101-104 | Files an incompatibility under the subject of each term. |
| `Resolvers.Resolver.PropagateIncompatibility` | src/python/toolchain/satresolver/core.py:121-154 | The loop over terms computes the outcome of the specification and extends the log accordingly. |
| `Resolvers.Resolver.SortIncompatibilityTerms` | src/python/toolchain/satresolver/core.py:156-160 | Equals the sorted terms of the specification. |
| `Resolvers.Resolver.PreviousDecisionLevel` | src/python/toolchain/satresolver/core.py:162-175 | Equals the previous level of the specification, which `Conflicts.PreviousLevelSucceeds` shows to be the lowest that supports the conflict. |
| `Resolvers.Resolver.MergeTerms` | src/python/toolchain/satresolver/core.py:177-190 | The dictionary loop equals the merge of the specification, including its error. |
| `Resolvers.Resolver.CreateIncompatibilityFromConflict` | src/python/toolchain/satresolver/core.py:192-230 | Equals the resolvent of the specification. |
| `Resolvers.Resolver.ResolveConflict` | src/python/toolchain/satresolver/core.py:232-264 | The loop ends, returns the verdict of the specification, cuts the log to the learned level and records the root cause. |
| `Resolvers.Resolver.IsConflictWith` | src/python/toolchain/satresolver/core.py:266-278 | All terms satisfied, or all about one package. |
| `Resolvers.Resolver.HandleConflict` | src/python/toolchain/satresolver/core.py:115-117 | Resolves a conflict and propagates its root cause, as one step of the machine. |
| `Resolvers.Resolver.ExamineIncompatibility` | src/python/toolchain/satresolver/core.py:113-119 | The body of the propagation loop is one step of the machine. |
| `Resolvers.Resolver.PropagateAll` | src/python/toolchain/satresolver/core.py:106-119 | The nested loops follow the run of the machine until the queue is empty, and end. |
| `Resolvers.Resolver.ChoosePackageVersion` | src/python/toolchain/satresolver/core.py:280-337 | One choosing step of the machine: nothing left, no valid version, or list the facts and decide unless one conflicts. |
| `Resolvers.Resolver.Solve` | src/python/toolchain/satresolver/core.py:92-99 | The main loop follows the run of the machine to its end. |
| `Resolvers.Resolver.Result` | src/python/toolchain/satresolver/partial_solution.py:32-39 | The decided versions are exactly the solution read off the log. |
| `Configs.Config.constructor` | src/python/toolchain/satresolver/config.py:18-37 | Builds the map; the universe of the resolve is closed under dependencies and consists of the reachable packages. |
| `Configs.Config.IncompatibilitiesFor` | src/python/toolchain/satresolver/config.py:66-96 | One fact for each dependency of the version, in order, the first time, and nothing afterwards. Each says, term by term, the version itself and the absence of every version that the requirement asks for, or of every pinned version; the cause is the override cause exactly for pinned packages. |
| `Configs.Config.ValidVersionsForPackage` | src/python/toolchain/satresolver/config.py:157-168 | The versions that exist, are not known to be invalid and are in the constraint, which are the usable ones. |
| `Configs.ProbedVersionsAreJudged` | src/python/toolchain/satresolver/config.py:163-167 | After the walk, subtracting the known-invalid versions leaves exactly the fetchable ones, so no version whose dependencies cannot be fetched is decided. |
| `Configs.Config.BestPackage` | src/python/toolchain/satresolver/config.py:131-155 | The package with the fewest valid versions, then the smallest name. |
| `Machine.BestIsUnique` | src/python/toolchain/satresolver/config.py:148-153 | That package is unique, so the choice is deterministic. |
| `Configs.Config.BestVersionForPackage` | src/python/toolchain/satresolver/config.py:170-182 | The newest valid version, or the oldest for a downgrade. |
| `Graphs.Graph.constructor` | src/python/toolchain/satresolver/graph.py:78-83 | Empty caches. |
| `Graphs.Graph.DependenciesFor` | src/python/toolchain/satresolver/graph.py:116-130 | The cached or fetched dependencies; a failed fetch gives no dependencies and marks the version invalid. |
| `Graphs.Graph.Visit` | src/python/toolchain/satresolver/graph.py:91-95 | Probes every version of the package and pushes exactly its unvisited successors. |
| `Walks.RepeatedVisit` | src/python/toolchain/satresolver/graph.py:89-95 | Visiting a package again either uncovers an unvisited top of the stack or shortens the stack, which bounds repeated entries. |
| `Walks.PathStaysInside` | src/python/toolchain/satresolver/graph.py:85-96 | Every path from a direct dependency stays inside a closed set of names. |
| `Walks.WalkEnds` | src/python/toolchain/satresolver/graph.py:85-96 | When the stack is empty the visited names are exactly the reachable ones. |
| `Graphs.Graph.Walk` | src/python/toolchain/satresolver/graph.py:88-95 | The worklist loop ends on every finite graph, cyclic or not, with every version of every visited package probed. |
| `Graphs.Graph.BuildTransitiveDependencyMap` | src/python/toolchain/satresolver/graph.py:85-96 | The visited names are exactly the packages reachable from the requirements, and every version of each has been probed. |
| `ResultGraphs.RelaxedIsMinimal` | src/python/toolchain/satresolver/simple_result_graph.py:47-53 | A table that is sound and relaxed on every edge gives at most the length of every walk. |
| `ResultGraphs.ResultGraph.FindMinimumDepths` | src/python/toolchain/satresolver/simple_result_graph.py:47-53 | The pruned recursive walk ends on cyclic graphs and keeps the table sound and relaxed. |
| `ResultGraphs.ResultGraph.FindAllDepths` | src/python/toolchain/satresolver/simple_result_graph.py:72-73 | Every reachable package gets exactly 1 plus its shortest distance from a direct dependency. |
| `ResultGraphs.ResultGraph.MakeLines` | src/python/toolchain/satresolver/simple_result_graph.py:58-66 | The package's line, alone or followed by the listing of its dependencies one level deeper; packages are expanded at their minimum depth, each once. |
| `ResultGraphs.ListingSnoc` | src/python/toolchain/satresolver/simple_result_graph.py:64-65 | Appending the block of one more package to a listing gives the listing of the longer list, in order. |
| `ResultGraphs.SortNodes` | src/python/toolchain/satresolver/simple_result_graph.py:74 | The same packages, as often, with names ascending and versions ascending under the same name. |
| `ResultGraphs.ExpandBlock` | src/python/toolchain/satresolver/simple_result_graph.py:58-66 | A package is expanded at the first line that shows it at its minimum depth. |
| `ResultGraphs.EverythingPrinted` | src/python/toolchain/satresolver/simple_result_graph.py:74-76 | Every package with a depth has been expanded. |
| `ResultGraphs.ResultGraph.Run` | src/python/toolchain/satresolver/simple_result_graph.py:68-76 | Every reachable package is expanded exactly once, where it first appears at its minimum depth. The lines list the sorted direct dependencies, each alone or followed by its dependencies in order one level deeper; there is one line per direct dependency and one per edge that leaves an expanded package. |
| `Chunks.ChunkIndexList` | src/python/curator/utils.py:560-581 | The chunks flatten to the list if and only if it is not empty, no name contains a comma, and no name is added to an open chunk that is the empty string because of an empty name. If no name contains a comma, every chunk but the last has at least 3072 characters and each was below 3072 before its last name. |
| `Chunks.NonEmptyNamesAreKept` | src/python/curator/utils.py:571-579 | Non-empty names never leave an open chunk empty, so for them only commas matter. |
| `Chunks.SplitJoin` | src/python/curator/utils.py:578-580 | Splitting at commas undoes joining with commas. |
| `Chunks.ChunkSize` | src/python/curator/utils.py:571-580 | No chunk exceeds 3072 by more than its longest name. |
| `DateRanges.MonthStartIsFirstDay` | src/python/curator/utils.py:229-235 | Counting month lengths from January 1970 agrees with the Gregorian day formula, for all months. |
| `DateRanges.MonthAt` | src/python/curator/utils.py:347 | Every moment lies in a month. |
| `DateRanges.MonthIsUnique` | src/python/curator/utils.py:347 | And in no other one. |
| `DateRanges.FixEpochKeeps` | src/python/curator/utils.py:181-206 | `fix_epoch` returns its argument exactly when that is written with at most ten characters. |
| `DateRanges.MillisecondsToSeconds` | src/python/curator/utils.py:181-206 | For eleven to thirteen characters `fix_epoch` divides by 1000: milliseconds of 10^7 to 10^10 seconds give the seconds. |
| `DateRanges.NegativeMilliseconds` | src/python/curator/utils.py:181-206 | The same for negative milliseconds, truncated towards zero. |
| `DateRanges.LongEpochs` | src/python/curator/utils.py:181-206 | Beyond thirteen characters the result is the first ten digits: 10^(w-10) times it is at most the argument of width w, which is below 10^(w-10) times its successor. |
| `DateRanges.LongNegativeEpochs` | src/python/curator/utils.py:181-206 | The same for negative arguments, truncated towards zero. |
| `DateRanges.ClockIsReadForZero` | src/python/curator/utils.py:302-308 | The clock is read instead of the epoch exactly for the epoch 0. |
| `DateRanges.CalendarYears` | src/python/curator/utils.py:347 | A moment is in the calendar exactly when its year is from 1 to 9999. |
| `DateRanges.MonthLengths` | src/python/curator/utils.py:347 | The length of every month, February by the leap year rule. |
| `DateRanges.StepMonths` | src/python/curator/utils.py:376-389 | The month-stepping loops equal one addition on 12·year + month, in both directions. |
| `DateRanges.MonthRange` | src/python/curator/utils.py:372-390 | Start and end of a range of months, by the stepping loops. |
| `DateRanges.YearRange` | src/python/curator/utils.py:391-393 | Start and end of a range of years. |
| `DateRanges.FixedStart` | src/python/curator/utils.py:353-371 | The truncated point of reference minus the offset is the start of the range, for hours, days and weeks. |
| `DateRanges.DateRange` | src/python/curator/utils.py:325-424 | The computed range, the error for a reversed range, and the dates outside the calendar. |
| `DateRanges.RangesTile` | src/python/curator/utils.py:396-424 | A range ends one second before the next one starts if and only if its start is read back unchanged by `get_point_of_reference`. |
| `DateRanges.CurrentRangeContainsEpoch` | src/python/curator/utils.py:352-395 | Exactly when the current range contains the epoch: if its start is read back unchanged, always except for Sunday-based weeks on a Sunday; if the start is 0 and read as the clock, when the clock is late enough; otherwise exactly for starts before 1970. |
| `DateRanges.StartsAligned` | src/python/curator/utils.py:353-371 | Hours start on the hour, days and weeks at midnight, weeks on a Monday or, for Sunday-based weeks, on a Sunday. |
| `DateRanges.CalendarStarts` | src/python/curator/utils.py:372-393 | Months start at midnight on their first day and years on the first of January, by the Gregorian day formula. |
| `DateRanges.StartsRise` | src/python/curator/utils.py:351-395 | Later ranges start strictly later. |

## Left out

- `use_latest` and `locked` in `Config`: both are taken as empty, so `incompatibilities_for_package` always answers None.
- Machine.Best: does not rank packages with `use_latest` or `locked` as having one version, because both are taken as empty.
- Machine.BestVersion: does not prefer a locked version, because `locked` is taken as empty.
- Configs.Config.constructor: has no `use_latest` and `locked`, because both are taken as empty.
- Configs.Config.BestPackage: does not rank packages with `use_latest` or `locked` as having one version, because both are taken as empty.
- Configs.Config.BestVersionForPackage: does not prefer a locked version, because `locked` is taken as empty.
- Resolvers.Resolver.ChoosePackageVersion: adds no incompatibilities for `use_latest` and `locked`, because both are taken as empty.
- A second call of `Resolver.run`, which runs the solver again because `has_run` and `_has_run` differ.
- `Report`, log messages, `__str__`, hashing, `lru_cache` and the JSON export of graphs.
- Graphs.Graph.DependenciesFor: does not store the exception of a failed fetch, only that the version is invalid.
- The exceptions stored for packages that were not found; only the fact that they were not found is kept.
- A package named like the root marker: root and packages are different subjects in the model.
- EntryPoints.ResolveRequirements: requires that a version that depends on its own package accepts itself, as `SelfDependencies` explains, and that all dependencies on that package accept an existing version; the runs on which only the latter fails are not described.
- EntryPoints.ResolveRequirements: the condition under which a failure is always right is sufficient, not necessary.
- EntryPoints.ResolveRequirements: which versions a solution takes is stated outright only where no version has dependencies; in general it is the end of the run, each of whose decisions `Preferences.RunPreferred` describes.
- Preferences.NothingSuperfluous: is stated for forgiving inputs only, because its proof needs every derivation to be harmless; nothing is claimed for other inputs.
- Mergeable.RunNeverBreaks: satisfiable dependencies are sufficient for the absence of the error, not necessary on every input.
- Resolvers.Resolver.Result: gives the set of decided versions, not the sorted list.
- ResultGraphs.ResultGraph.Run: lines are (depth, package) pairs without the characters that draw them.
- PartialSolutions.PartialSolution.Register: an impossible intersection leaves no entry instead of None; sound logs never produce one.
- PartialSolutions.PartialSolution.FindSatisfier: on a log with an impossible intersection the source raises an error; sound logs have none.
- DateRanges.FixEpochKeeps: `fix_epoch` divides exactly and truncates; the rounding of floating-point division beyond 2^53 is not modelled.
- DateRanges.DateRange: takes integers for the epoch; texts that cannot be converted and unknown units are not modelled.
- The remaining parts of the repository: curator actions, index and snapshot lists, the package index back ends, cloud, web and build code.
