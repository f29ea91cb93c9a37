# Meta-Harness runtime: a verified model

Meta-Harness runs graphs of components. A candidate graph is staged, validated, sent through safety gates, cut over
while traffic is drained, versioned, routed, and rolled back when it turns out unhealthy; evidence about all of this is
anchored in a Merkle log. This project models that core in Dafny and proves what it keeps over whole runs.

The model follows the program's structure, one module per source component. Classes hold the fields the source mutates;
each method is proved against a specification function on plain values, and the run theorems speak about those
functions.

| part | modules |
|---|---|
| graph lifecycle | `Ids`, `Digraph`, `Models`, `GraphShape`, `CycleCheck`, `Validators`, `GraphVersions`, `VersionRuns`, `Routing`, `PortIndex`, `ContractPruner`, `ConnectionEngine`, `SafetyPipeline`, `GraphRuns` |
| the runtime | `Lifecycle`, `PhaseRuns`, `Judgement`, `Sessions`, `RuntimeSteps`, `RuntimeRuns`, `Boot`, `RuntimeCalls` |
| drain and cutover | `EventBus`, `Drain`, `DrainRuns`, `Interleaving` |
| graph algorithms | `CycleCheck`, `LongestPath`, `BootOrder`, `Provenance`, `CounterFactual` |
| evidence | `Merkle`, `AuditLog` (module `AuditLogs`) |
| sagas and hot swap | `Saga`, `Swap` |
| execution and statistics | `Reals`, `Polling`, `Execution`, `Percentiles` |

`dafny verify dfyconfig.toml` checks everything.

## What the proofs found

Places where the code does something other than its documentation or a reader would expect. Each has a lemma, with the
exact condition where the property holds only under one.

- A refusal that is no deferral marks every component it names FAILED, committed ones included, and FAILED is final.
  The phases of a graph that was cut over can be recorded exactly when, before the call, each of its tracked components
  was ASSEMBLED, VALIDATED_DYNAMIC or COMMITTED; otherwise the call cuts over and then raises. So after a refusal this
  works exactly when it did before and the graph shares no component with those failed, and a component suspended or
  activated before the drain spoils it as well (`PhaseRuns.CutoverSettlesExactly`,
  `PhaseRuns.RejectionSpoilsLaterCommits`, `PhaseRuns.SuspendedCannotCommit`, `RuntimeSteps.PromotionMeans`).
- A refusal records its phases under the same condition, provided a rejection names no component twice; a second refusal
  of a component raises, and publishes nothing (`PhaseRuns.RefusalReturnsExactly`, `PhaseRuns.SecondRefusalRaises`).
- `next_version` reserves nothing. A deferred candidate keeps its number, the number is handed out again, and the later
  review overwrites the committed snapshot. A commit leaves history alone exactly when it does not reuse a number for
  another snapshot (`VersionRuns.CommitConservesExactly`, `VersionRuns.DeferredNumberReused`).
- Retirement is documented to keep the rollback target live; it protects the active version only. After a commit the
  target is live exactly when retention is off or the window is exceeded by no more than there are versions older than
  the target. A window of one always archives it, a window of two does after a roll-back. Roll-back works regardless,
  because it looks in the archive too (`VersionRuns.TargetStaysLiveExactly`, `VersionRuns.WindowOfOneArchivesTarget`,
  `VersionRuns.WindowOfTwoArchivesTarget`, `VersionRuns.CommitThenRollback`).
- `update_candidate` replaces the first record of an id, review picks the last deferred one; the review settles its
  record exactly when no earlier record has that id (`GraphVersions.ReviewSettles`).
- A replayed emission that raises closes the route drain, leaves the event drain active and forgets the epoch; the abort
  that follows fails as well. The next drain fails on it and leaves an epoch and a route drain behind. A subscriber that
  raises on a replayed event finds both drains over: the call raises with the graph cut over and the events after that
  one are lost, but the next drain opens. Completion leaves no drain behind exactly when no replayed emission raises, and
  returns exactly when, besides, no subscriber does (`DrainRuns.CompletionExact`, `DrainRuns.AtMostOnce`,
  `RuntimeSteps.RaisingReplayBlocksNext`, `RuntimeSteps.RaisingSubscriberBlocksNothing`).
- Most flaws block no promotion by themselves: only cycles, orphans and protection issues do. Unknown components, ports
  or payloads are stopped by the sandbox gate or not at all. With that gate, what is promoted is exactly what is ready,
  allowed and in shape and, unless approved, leaves everything protected alone (`Validators.WhatBlocks`,
  `Judgement.AdmittedExactly`).
- A drain that does not open, by a time-out for instance, stays active and current. After that, or after a replayed
  emission that raised, no `commit_graph` and no review ever cuts over again (`RuntimeRuns.RuntimeStaysBroken`).
- A graph whose health check fails is documented to be rolled back. It stays active exactly when no graph was active
  before it or it has overwritten the active version, as a deferred candidate reviewed late can. Over a whole promotion
  with a failing probe, the graph from before is active again exactly when the drain did not open, the candidate was
  that graph, or drain, replays and phases went well, there was an active graph and the candidate has another number
  (`GraphRuns.UnhealthyStaysExactly`, `GraphRuns.LateReviewStaysUnhealthy`, `Sessions.FirstGraphStays`,
  `RuntimeSteps.UnhealthyRolledBackExactly`).
- Rolling back right after a commit restores everything but the list of archived versions, which keeps the number of a
  version that was archived and is live again (`GraphRuns.PromoteThenRevert`).
- A component already suspended before a drain comes back activated, and a running one that is removed during the drain
  stays suspended; every other one gets its phase back (`Drain.SuspendResumeBracket`).
- `emit` checks for a drain and counts itself in flight in two actions. An emission between the two can call handlers
  in a system that counts as quiet, even on the old table after the new one is loaded; whatever is in flight, this is
  possible exactly when some emission stands in that window (`Interleaving.QuietExactlyWhenWindowClear`,
  `Interleaving.StaleCall`).
- The protected boundary check compares connection id, endpoints, payload and mode, but not the policy. No check looks
  at policies at all: graphs that differ in nothing else get the same verdict, and a required connection into a
  protected component becomes optional without any approval (`GraphShape.PolicyIsNeverChecked`,
  `GraphRuns.PolicyChangePromotes`, `GraphRuns.RequiredMadeOptional`).
- `_longest_dependency_path` counts a longest walk exactly on acyclic graphs. On a cycle of two components it gives 3,
  in general at most one more than there are components (`LongestPath.LongestDependencyPath`, `LongestPath.TwoCycle`).
- Merkle roots bind the leaves only for a fixed leaf count. Trees share a root exactly when the level of the higher one
  at the height of the other is, with odd levels filled up, the leaf digests of the other, collisions aside; so a leaf
  that holds two digests is indistinguishable from their parent (`Merkle.SameRootExactly`,
  `Merkle.SameRootAcrossHeights`, `Merkle.DuplicatedTailSameRoot`, `Merkle.PairSameRootAsInnerLeaf`).
- The derivation depth evaluator is described as the depth of the deepest derivation chain; it computes the largest
  shortest distance. That is the length of the deepest chain exactly when the reached entities can be given levels that
  start at 0, rise along every derivation and never exceed the score; every chain is as long as the distance of its end
  exactly when no reached derivation skips a level (`CounterFactual.DeepestChainExactly`,
  `CounterFactual.ChainsAreDistancesExactly`, `CounterFactual.ShortcutHidesChain`).
- A hot swap whose export fails leaves the outgoing component suspended, whereas any later failure resumes it, even when
  it was a drain and not the swap that had suspended it (`Swap.FailedSwapResumesOutgoing`).
- An undotted source lands under a key with a dot after it in the public route table, so the two route tables agree on
  all sources exactly when every connection has a dotted source, as in every reachable state without a component of
  empty id (`PortIndex.TablesAgreeExactly`, `GraphRuns.PublicTableAgrees`).
- A finished run leaves no terminal event exactly when it is interrupted and its cancel hook raises
  (`Execution.EventsOfRun`).
- Without a polling strategy nothing bounds the poll loop: followed for any number of sleeps it is unfinished exactly
  when no poll and no sleep before that ended it (`Execution.ExecutionLifecycleService.PollUntilTerminal`).

## Model

| member | source | states |
|---|---|---|
| Ids.SplitJoin | src/metaharness/core/validators.py:116-117 | splitting an endpoint at its last dot gives back the joined component and port exactly when the port name is free of dots |
| Ids.JoinSplit | src/metaharness/core/validators.py:116-117 | joining what was split gives the endpoint back exactly on dotted endpoints |
| CycleCheck.CycleSearch.HasCycle | src/metaharness/core/validators.py:207-220 | the colouring search, with its termination measure: an answer of true comes with a node on a cycle; an answer of false leaves finished nodes closed under successors and listed after them |
| CycleCheck.FindCycle | src/metaharness/core/validators.py:204-228 | a cycle is reported if and only if the component adjacency has one, in any iteration order of the node set |
| Validators.CheckEdges | src/metaharness/core/validators.py:112-167 | one pass reports exactly the endpoint and port flaws, and leaves adjacency and bound-input lists that hold exactly the graph's |
| Validators.ProtectedBoundaryIssues | src/metaharness/core/validators.py:44-84 | reports exactly the components, protected in either graph, that are removed or rewired |
| Validators.CheckOrphans | src/metaharness/core/validators.py:230-251 | reports exactly the unreferenced nodes of graphs with more than one node, pure sources aside |
| Validators.ValidateGraph | src/metaharness/core/validators.py:87-253 | the report lists exactly the issues due, plus a cycle issue exactly for cyclic graphs; it is valid if and only if the graph is well formed |
| Validators.ExactMeansWellFormed | src/metaharness/core/validators.py:87-253 | an exact report is valid exactly for graphs that are acyclic, closed, port- and payload-correct, with inputs bound, slots uncontested and protected boundaries kept |
| Validators.ProtectionIssuesOnly | src/metaharness/core/boot.py:1271-1281 | what an approval cannot waive: a report with protection issues only is about a graph in shape |
| Validators.WhatBlocks | src/metaharness/core/validators.py:44-253 | which flaws block a promotion and which an approval may waive |
| GraphShape.PolicyIsNeverChecked | src/metaharness/core/validators.py:27-253 | graphs that differ in nothing but policies are both well formed or both not |
| GraphShape.BoundaryKeptExactly | src/metaharness/core/validators.py:16-84 | the boundary check connection by connection: a component marked as protected by its manifest or by its first node in either graph stays, and both graphs connect it alike but for policies |
| GraphVersions.GraphVersionStore.NextVersion | src/metaharness/core/graph_versions.py:54-60 | one more than the largest number live or archived, or 1 |
| GraphVersions.GraphVersionStore.Commit | src/metaharness/core/graph_versions.py:81-89 | the whole new store: active and rollback pointers move, the snapshot is written, retirement follows |
| GraphVersions.GraphVersionStore.Rollback | src/metaharness/core/graph_versions.py:91-111 | restores the rollback version from live or archive and empties the slot; raises and changes nothing without one |
| GraphVersions.GraphVersionStore.Retire | src/metaharness/core/graph_versions.py:113-137 | archives lowest unprotected versions until the window fits; a non-positive retention retires nothing |
| GraphVersions.GraphVersionStore.RetireTo | src/metaharness/core/graph_versions.py:139-143 | retirement to another window |
| GraphVersions.GraphVersionStore.UpdateCandidate | src/metaharness/core/graph_versions.py:67-74 | replaces the first record of the id, appends when there is none |
| GraphVersions.UpdatedExactly | src/metaharness/core/graph_versions.py:67-74 | record by record: only the first of the id, or a new last one, differs |
| GraphVersions.ReviewSettles | src/metaharness/core/graph_versions.py:67-74 | a review settles the record it picked exactly when no earlier record has its id |
| VersionRuns.RunConsistent | src/metaharness/core/graph_versions.py:81-143 | every run keeps snapshots under their numbers, the active version live and the live size at most retention + 1 |
| VersionRuns.RunHistory | src/metaharness/core/graph_versions.py:81-143 | after any run the history is the old one overwritten by what was committed: nothing is lost, nothing else altered |
| VersionRuns.FreshRunOverwritesNothing | src/metaharness/core/graph_versions.py:81-143 | with fresh numbers no committed entry is overwritten and live and archived stay disjoint |
| VersionRuns.FreshStoreConserves | src/metaharness/core/graph_versions.py:81-143 | from the empty store a fresh run ends with every committed snapshot and only those, active live, size bounded |
| VersionRuns.CommitConsistent | src/metaharness/core/graph_versions.py:81-137 | after a commit at most `retention` versions are live |
| VersionRuns.CommitConservesExactly | src/metaharness/core/graph_versions.py:81-89 | a commit leaves history alone exactly when it does not reuse a number for another snapshot |
| VersionRuns.DeferredNumberReused | src/metaharness/core/boot.py:1102-1107 | a deferred candidate's number is handed out again and its later commit overwrites |
| VersionRuns.RetiredKeeps | src/metaharness/core/graph_versions.py:113-137 | retirement loses nothing, keeps the active version live and ends with a window that fits |
| VersionRuns.OldestFirst | src/metaharness/core/graph_versions.py:113-137 | whatever was archived is older than every inactive version left |
| VersionRuns.RetiresNoMoreThanNeeded | src/metaharness/core/graph_versions.py:113-137 | retirement never goes below the window |
| VersionRuns.NextVersionFresh | src/metaharness/core/graph_versions.py:54-60 | after any run `next_version` exceeds every number known or committed |
| VersionRuns.CommitThenRollback | src/metaharness/core/graph_versions.py:81-111 | rolling back right after a commit restores the active version and its snapshot, retired in between or not, exactly when the commit did not overwrite that version |
| VersionRuns.RollbackTargetKept | src/metaharness/core/boot.py:1389-1390 | a commit always remembers the version it replaced, so the runtime's invariant check never fails |
| VersionRuns.StaysLiveExactly | src/metaharness/core/graph_versions.py:113-137 | an inactive live version survives retirement exactly when retention is off or the window is exceeded by no more than there are older inactive versions |
| VersionRuns.TargetStaysLiveExactly | src/metaharness/core/graph_versions.py:81-137 | after a commit the rollback target is live exactly under that condition; otherwise it is archived, and rolling back makes it live again |
| VersionRuns.WindowOfOneArchivesTarget | src/metaharness/core/graph_versions.py:113-124 | with a window of one every commit archives its rollback target |
| VersionRuns.WindowOfTwoArchivesTarget | src/metaharness/core/graph_versions.py:81-137 | with a window of two, two commits, a roll-back and a third commit archive it |
| VersionRuns.RollbackOnce | src/metaharness/core/graph_versions.py:91-111 | a second roll-back without a commit in between changes nothing |
| EventBus.EventBus.BeginDrain | src/metaharness/core/event_bus.py:77-82 | opens a drain with an empty buffer; a second one raises and changes nothing |
| EventBus.EventBus.EndDrain | src/metaharness/core/event_bus.py:84-96 | closes the drain and then, on replay, dispatches what was held up to the first event a subscriber raises on; each event that reaches the history is the held one with the header of its epoch added |
| EventBus.EventBus.Publish | src/metaharness/core/event_bus.py:98-156 | holds the event tagged with its epoch during a drain, refuses it when full; otherwise returns the subscribers' answers in order, or raises after the first that does, with the event in the history |
| EventBus.ReplayedIsSame | src/metaharness/core/event_bus.py:84-156 | an event that was held and replayed has the name, payload, trace id and headers it was published with; the two drain headers are added unless it had them, and hold its epoch |
| EventBus.AllHeardInTurn | src/metaharness/core/event_bus.py:147-156 | when nobody raises, each event is heard by each of its subscribers once, at the place its turn has among all calls |
| EventBus.ReplayHistory | src/metaharness/core/event_bus.py:84-96 | replay appends each event it dispatches to the history once, in order of acceptance, and returns exactly when no subscriber raises on any |
| EventBus.SentExactly | src/metaharness/core/event_bus.py:84-96 | the events dispatched are all of them when no subscriber raises, otherwise those up to the first that one raises on |
| EventBus.SentIsHeld | src/metaharness/core/event_bus.py:84-96 | the events dispatched are the held ones from the first on; a subscriber raises on the last of them, or they are all |
| EventBus.ReplayDeliveries | src/metaharness/core/event_bus.py:147-156 | each subscriber of a replayed event is called once for it, in subscription order; after one that raises nobody is called |
| Routing.CompileRouteTable | src/metaharness/core/connection_engine.py:70-84 | computes the table that maps each source to its connections in edge order |
| Routing.LookupIsScan | src/metaharness/core/connection_engine.py:70-84 | the compiled table answers every lookup like a direct scan of the edges |
| Routing.RoutesAreConnections | src/metaharness/core/connection_engine.py:70-84 | what is routed for a source are the connections that leave it, in edge order, with id, target, payload type, mode and policy |
| Routing.EmissionReturns | src/metaharness/core/connection_engine.py:265-284 | with handlers on all non-shadow targets, none raising or publishing what a subscriber raises on, an emission returns one value per non-shadow edge in edge order |
| Routing.ShadowsDoNotMatter | src/metaharness/core/connection_engine.py:265-284 | with handlers that agree on all non-shadow connections, an emission outside a drain raises in the one case exactly when in the other and returns the same values, whatever shadow handlers there are and do |
| Routing.EmissionCalls | src/metaharness/core/connection_engine.py:265-284 | an emission that does not raise calls every bound handler once, in order |
| Routing.ReplayCalls | src/metaharness/core/connection_engine.py:203-214 | a replay that runs to its end dispatches every held emission once, in order |
| PortIndex.PortIndex.FromRegistry | src/metaharness/core/port_index.py:49-79 | indexes exactly the ports the components declare, in their direction and with their payload type, sorted by component and direction |
| PortIndex.RouteIndex.Build | src/metaharness/core/port_index.py:109-134 | files exactly one entry per connection under the keys of its endpoints, in edge order: the declared port of each endpoint, or one made up with the connection's payload type |
| PortIndex.EntryExactly | src/metaharness/core/port_index.py:109-134 | the entry of a connection joins, for each endpoint, the last port declared under that name or else one made up in that direction with the payload type of the connection |
| PortIndex.IndexedHoldsLast | src/metaharness/core/port_index.py:49-79 | under a qualified id stands the last port declared with it |
| PortIndex.ByIdHoldsLast | src/metaharness/core/port_index.py:133-133 | under a connection id stands the entry of the last connection of that id, and under no other id anything |
| PortIndex.DottedRoutesAgree | src/metaharness/core/port_index.py:136-137 | for a dotted source not ending in a dot, `routes_from` gives the engine's routes in the same order |
| PortIndex.TablesAgreeExactly | src/metaharness/core/port_index.py:109-137 | both tables agree on every source exactly when every connection has a dotted source |
| ContractPruner.ContractPruner.LegalTargets | src/metaharness/core/contract_pruner.py:39-56 | lists exactly the legal inputs for a declared output, nothing for anything else |
| ContractPruner.ContractPruner.LegalPairs | src/metaharness/core/contract_pruner.py:58-66 | lists exactly the proposed pairs |
| ContractPruner.FqidsDistinct | src/metaharness/core/port_index.py:23-25 | with distinct, non-empty, dot-free port names a qualified id names one port |
| ContractPruner.ProposalsExact | src/metaharness/core/contract_pruner.py:39-86 | the proposals are sound and complete: exactly the connections between different registered components that pass the validator's port and payload checks, carry the output's type, are not denied and do not enter a protected component |
| ContractPruner.PrunerProposes | src/metaharness/core/contract_pruner.py:58-66 | what the method lists over the registry's index is what those proposals are |
| ConnectionEngine.ConnectionEngine.MissingRequiredHandlers | src/metaharness/core/connection_engine.py:86-95 | the sorted list of exactly the non-shadow targets without a handler |
| ConnectionEngine.ConnectionEngine.Stage | src/metaharness/core/connection_engine.py:103-113 | a candidate with the next version and an exact report about it |
| ConnectionEngine.ConnectionEngine.Commit | src/metaharness/core/connection_engine.py:115-132 | store, route table and registry move together for a valid report; an invalid one only records the candidate |
| ConnectionEngine.ConnectionEngine.DiscardCandidate | src/metaharness/core/connection_engine.py:134-153 | records the candidate, clears the staged graph and changes nothing else |
| ConnectionEngine.ConnectionEngine.Rollback | src/metaharness/core/connection_engine.py:155-160 | store, route table and registry go back together |
| ConnectionEngine.ConnectionEngine.EndDrain | src/metaharness/core/connection_engine.py:203-214 | closes the drain before replaying; a raising emission ends the replay |
| ConnectionEngine.ConnectionEngine.Emit | src/metaharness/core/connection_engine.py:221-294 | held in order during a drain, refused when full; otherwise dispatched against the current table with the in-flight count restored |
| Lifecycle.LifecycleTracker.Record | src/metaharness/core/lifecycle_tracker.py:33-46 | records legal transitions and the first phase, refuses everything else |
| Lifecycle.FailedIsFinal | src/metaharness/core/lifecycle_tracker.py:7-20 | no legal path leaves FAILED |
| Lifecycle.AllowedExactly | src/metaharness/core/lifecycle_tracker.py:7-20 | which moves are legal: stage by stage, from running to suspended and back, and from everything but FAILED to FAILED |
| Lifecycle.CommittedWasActivated | src/metaharness/core/lifecycle_tracker.py:7-20 | on a legal path from before activation, COMMITTED and SUSPENDED come after ACTIVATED |
| Drain.DrainCoordinator.Begin | src/metaharness/core/drain.py:86-115 | every outcome with its exact state: which drains are active, which epoch is current, which phases and hooks changed |
| Drain.DrainCoordinator.Complete | src/metaharness/core/drain.py:117-132 | components still known resumed in reverse, routes replayed before events, epoch closed; a raising emission leaves the event drain, a raising subscriber no drain |
| Drain.DrainCoordinator.Abort | src/metaharness/core/drain.py:134-146 | components still known resumed, both buffers dropped, epoch closed |
| Drain.DrainCoordinator.SuspendComponents | src/metaharness/core/drain.py:148-159 | suspends the affected components present, remembers their phases and moves running ones to SUSPENDED by a legal transition |
| Drain.DrainCoordinator.ResumeComponents | src/metaharness/core/drain.py:161-174 | resumes in reverse, passes over components removed since, and brings suspended ones back by legal transitions |
| Drain.SuspendResumeBracket | src/metaharness/core/drain.py:148-174 | begin then complete or abort gives every component its phase back, one suspended before and one removed in between aside |
| Drain.TargetsExactly | src/metaharness/core/drain.py:148-159 | whom an epoch suspends: each affected component that is known, once, in order of first mention |
| DrainRuns.EpochHolds | src/metaharness/core/connection_engine.py:286-294 | during an epoch nothing is dispatched and the buffers hold the first arrivals, in order, up to the bounds |
| DrainRuns.BoundKept | src/metaharness/core/event_bus.py:138-145 | never more than the configured bounds is held |
| DrainRuns.AtMostOnce | src/metaharness/core/drain.py:117-132 | once no replayed emission raises, each accepted one was dispatched once, in order; the accepted events reach the history once, in order and as they were published, up to the first a subscriber raises on; nothing stays held |
| DrainRuns.ExactlyOnce | src/metaharness/core/drain.py:117-132 | a completed epoch dispatches each accepted emission once, in order, against the table loaded at cutover; then each accepted event and those the replayed handlers published reach the history once, in order, with name, payload, trace id and headers as published, and each subscriber hears each once |
| DrainRuns.NeverAfterAbort | src/metaharness/core/drain.py:134-146 | an aborted epoch dispatches nothing it held |
| DrainRuns.NothingReplayed | src/metaharness/core/drain.py:117-132 | nor does an epoch completed without replay, which always returns |
| DrainRuns.SeriesCompletesExactly | src/metaharness/core/connection_engine.py:203-214 | a replay runs to its end exactly when no non-shadow handler raises and every publication fits |
| DrainRuns.CompletionExact | src/metaharness/core/drain.py:117-132 | completion leaves no drain behind exactly when no replayed emission raises, and returns exactly when besides no subscriber raises on a replayed event |
| DrainRuns.HeldInAll | src/metaharness/core/drain.py:117-132 | the counts of a drain's report: the emissions held up to the bound, and the events held and published by replayed handlers up to theirs |
| Interleaving.MoveKeepsSafe | src/metaharness/core/connection_engine.py:216-237 | step invariant: the count counts what is in flight, a quiet system has nothing in flight, every dispatch works on the current table |
| Interleaving.CallsNeverStraddleCutover | src/metaharness/core/connection_engine.py:216-237 | in runs whose drains begin with no emission between check and entry, no handler is called from quiescence to the end of the drain and none on a stale table |
| Interleaving.QuietExactlyWhenWindowClear | src/metaharness/core/connection_engine.py:216-237 | a drain begun now, whatever is in flight, is free of intruding calls exactly when no emission is in that window |
| Interleaving.RestIsSafe | src/metaharness/core/connection_engine.py:221-284 | a system at rest satisfies the invariant, and an emission that meets no drain runs through to its handlers |
| Interleaving.StaleCall | src/metaharness/core/connection_engine.py:231-235 | an intruding emission can call handlers of the old table after the new one is loaded |
| SafetyPipeline.EvaluateSnapshot | src/metaharness/safety/sandbox_validator.py:54-80 | the sandbox allows exactly the graphs that pass, never defers, and answers under its own name |
| SafetyPipeline.PassesIsStructural | src/metaharness/safety/sandbox_validator.py:54-80 | whatever is approved, a graph that passes has its shape |
| SafetyPipeline.PassesUnauthorized | src/metaharness/safety/sandbox_validator.py:54-80 | without approvals it passes exactly the well-formed graphs |
| SafetyPipeline.RunGates | src/metaharness/safety/pipeline.py:135-151 | the results are exactly those of the gates with a promotion hook, each under its gate's name, up to the first that does not allow |
| SafetyPipeline.EvaluateGraphPromotion | src/metaharness/safety/pipeline.py:96-151 | allowed exactly when the reviewer, if any, and every gate with a hook allow; a reviewer's own decision is the first result and, unless it allows, the only one; the first to refuse is named, and the results defer exactly when it does |
| SafetyPipeline.RefusedMeansSomeGate | src/metaharness/safety/pipeline.py:135-151 | the chain refuses exactly when some gate does not allow |
| SafetyPipeline.FirstRefuserNamed | src/metaharness/safety/pipeline.py:135-151 | the refuser named is the first gate in order that does not allow |
| SafetyPipeline.DeferredExactly | src/metaharness/safety/pipeline.py:135-151 | the gates' results hold a deferral exactly when the first gate that does not allow defers |
| SafetyPipeline.AllConsulted | src/metaharness/safety/pipeline.py:135-151 | while all gates allow, each one with a hook is consulted once, in order, under its name |
| SafetyPipeline.AutoRollback.Check | src/metaharness/safety/auto_rollback.py:79-90 | the first failing probe rolls store, table and registry back once and is recorded; healthy probes change nothing |
| GraphRuns.RoutingRefinesActiveGraph | src/metaharness/core/connection_engine.py:97-160 | in every reachable state the route table answers like a scan of the registry's active graph |
| GraphRuns.PublicTableAgrees | src/metaharness/core/port_index.py:109-137 | in every reachable state, when no component has an empty id, the public table of the active graph gives the engine's routes for every source |
| GraphRuns.OnlyGraphsInShape | src/metaharness/core/boot.py:1232-1424 | every graph ever active, or that could be rolled back to, is acyclic, closed, port-correct and has its inputs bound, whatever is approved |
| GraphRuns.PromotionKeepsBoundary | src/metaharness/core/validators.py:44-84 | one admitted promotion leaves a manifest-protected component wired as it was |
| GraphRuns.PolicyChangePromotes | src/metaharness/core/validators.py:27-84 | without any approval a graph that changes nothing but policies replaces the active one |
| GraphRuns.RequiredMadeOptional | src/metaharness/core/validators.py:27-84 | a concrete one: the required connection into a protected component becomes optional |
| GraphRuns.BoundaryNeverMoves | src/metaharness/core/validators.py:27-84 | no run without approvals ever changes the connections around a manifest-protected component |
| GraphRuns.BoundaryFixedByFirstCommit | src/metaharness/core/validators.py:27-84 | from the first valid commit on, all graphs of such a run agree around it |
| GraphRuns.PromoteThenRevert | src/metaharness/core/connection_engine.py:97-160 | promotion and roll-back restore active version, snapshot, route table and registry and lose nothing; the list of archived versions grows and keeps a version that was archived and is live again |
| GraphRuns.UnhealthyStaysExactly | src/metaharness/safety/auto_rollback.py:79-90 | a graph rolled back after its promotion stays active exactly when none was active before or it overwrote the active version |
| GraphRuns.LateReviewStaysUnhealthy | src/metaharness/core/boot.py:1025-1112 | a deferred graph reviewed after another was committed under its number stays active when rolled back |
| GraphRuns.FreshPromotionReverts | src/metaharness/core/connection_engine.py:97-160 | with the number `next_version` gives, this holds without proviso and nothing in history changes |
| PhaseRuns.CommitPhasesExact | src/metaharness/core/boot.py:1391-1397 | the phases after a commit can be recorded exactly when every tracked node is assembled, dynamically validated or committed; then all are committed |
| PhaseRuns.CommitPhasesUpTo | src/metaharness/core/boot.py:1391-1397 | a commit that raises has given the committed phase to exactly the nodes before the first whose phase does not allow it |
| PhaseRuns.DeferPhasesExact | src/metaharness/core/boot.py:1334-1337 | those after a deferral under the same condition; committed nodes are left alone |
| PhaseRuns.DeferPhasesUpTo | src/metaharness/core/boot.py:1334-1337 | the same for a deferral, which leaves committed nodes alone |
| PhaseRuns.RejectPhasesExact | src/metaharness/core/boot.py:1334-1339 | a rejection fails every node in order, committed ones too, up to the first in another phase or failed already, and changes nothing else |
| PhaseRuns.RefusalReturnsExactly | src/metaharness/core/boot.py:1334-1339 | a refusal's phase changes return exactly when its nodes can be changed and a rejection names none twice |
| PhaseRuns.CutoverSettlesExactly | src/metaharness/core/boot.py:1385-1397 | after a drained cutover the phases can be recorded exactly when they could before the drain |
| PhaseRuns.RejectionSpoilsLaterCommits | src/metaharness/core/boot.py:1334-1397 | after a rejection, exactly when they could before and the graph shares no node with those it failed |
| PhaseRuns.SuspendedCannotCommit | src/metaharness/core/boot.py:1391-1397 | a component suspended before the drain comes back activated and its commit cannot be recorded |
| PhaseRuns.SecondRefusalRaises | src/metaharness/core/boot.py:1334-1339 | refusing an assembled component returns once; a second refusal or deferral of it raises |
| Judgement.JudgedBlocks | src/metaharness/core/boot.py:1271-1312 | which judged reports block a promotion, exactly |
| Judgement.JudgedExactly | src/metaharness/core/boot.py:1243-1301 | the issues a judged report lists, exactly: what validation and readiness found, without the protection issues if approved, otherwise with one that demands approval for each subject affected |
| Judgement.AffectedExactly | src/metaharness/core/boot.py:1256-1262 | what an approval covers: the protected components that are removed or rewired, and the contested slots |
| Judgement.ApprovalWaivesExactly | src/metaharness/safety/sandbox_validator.py:54-80 | with what an approval authorizes the sandbox passes exactly the graphs in shape, without approval exactly the well-formed ones |
| Judgement.AdmittedExactly | src/metaharness/core/boot.py:1263-1327 | with the sandbox among the gates, what is promoted: exactly the ready candidates in shape that reviewer and other gates allow and that are approved or leave everything protected alone |
| Judgement.ForcedValidNeverNeeded | src/metaharness/core/boot.py:1382-1382 | with the sandbox passed and nothing blocking, the report is valid already: the forced flag is never needed |
| Judgement.AdoptedWithoutForce | src/metaharness/core/boot.py:1113-1118 | a deferred record that the sandbox passes at its review, whatever graph is active by then, is valid and lists no issue |
| Sessions.PromotionsAreAdmitted | src/metaharness/core/boot.py:1313-1327 | with the sandbox among the gates every promotion is a step the run theorems cover |
| Sessions.FirstGraphStays | src/metaharness/core/boot.py:1146-1172 | in particular a first graph that turns out unhealthy stays active |
| Sessions.SessionsKeepShapeAndBoundary | src/metaharness/core/boot.py:1025-1424 | through any series of calls after a first cutover, unhealthy or not, the active graph has its shape, and without approvals the connections around a manifest-protected component are those of the first graph |
| Sessions.FirstCutoverFixesBoundary | src/metaharness/core/boot.py:1025-1424 | the same when other calls were refused or failed before that first cutover |
| Sessions.StuckStandsStill | src/metaharness/core/boot.py:1174-1230 | while an epoch or a drain is left over, no series of calls changes the graph |
| Sessions.BrokenDrainIsFinal | src/metaharness/core/boot.py:1174-1230 | after a drain that did not open or a replayed emission that raised, no later call cuts over |
| RuntimeSteps.CutoverMeans | src/metaharness/core/boot.py:1174-1230 | a drained cutover loads the graph exactly when the drain opens, and leaves a drain or an epoch behind exactly when it does not open or a replayed emission raises |
| RuntimeSteps.PromotionMeans | src/metaharness/core/boot.py:1383-1398 | a promotion in full: how it ends by drain, replays, phases and probes, where phases are refused exactly when some tracked node had no phase to start from before the call; and the graph, phases, hooks, records, versions recorded and drains it leaves |
| RuntimeSteps.CutoverDispatches | src/metaharness/core/boot.py:1174-1230 | a drained cutover that completes loses nothing it accepted: emissions held before or after the load are dispatched once, in order of arrival, on the new graph alone; events reach history and subscribers once, as published |
| RuntimeSteps.CommitEndExactly | src/metaharness/core/boot.py:1379-1424 | each way an admitted `commit_graph` call can end, exactly when: the event before it raises, the drain does not open, a replay raises, a phase is refused, a probe fails, the event after it raises, or none of these |
| RuntimeSteps.RefusalEndExactly | src/metaharness/core/boot.py:1328-1371 | each way a refusal can end, exactly when: a phase change raises, the event raises, or neither |
| RuntimeSteps.ReviewEndExactly | src/metaharness/core/boot.py:1044-1144 | each way a review can end, exactly when: turned down if an issue of the record blocks or somebody refuses, deferred again if nothing blocks and the first to refuse defers, otherwise by drain, replays, probes and the event after it |
| RuntimeSteps.SuspendableRunsHooks | src/metaharness/core/boot.py:1182-1187 | the hooks of a drain: each known component among the nodes suspended once, in order of its first node, then all resumed in reverse |
| RuntimeSteps.EpochIdsDiffer | src/metaharness/core/drain.py:86-115 | drains for different candidates or versions have different epoch ids |
| RuntimeSteps.UnhealthyRolledBackExactly | src/metaharness/core/boot.py:1146-1230 | with a failing probe the graph from before is active afterwards exactly when the drain did not open, it was the candidate itself, or replays and phases went well, some graph was active and the candidate did not overwrite it |
| RuntimeSteps.RaisingReplayBlocksNext | src/metaharness/core/boot.py:1174-1230 | after a replayed emission that raised the next drain fails on the event drain and leaves an epoch and a route drain behind |
| RuntimeSteps.RaisingSubscriberBlocksNothing | src/metaharness/core/boot.py:1174-1230 | after a subscriber that raised on a replayed event the graph is cut over and the next drain opens |
| RuntimeSteps.CommitIsSession | src/metaharness/core/boot.py:1232-1424 | however a `commit_graph` call ends, it is a step of a session |
| RuntimeSteps.ReviewIsSession | src/metaharness/core/boot.py:1025-1144 | so is a late review |
| RuntimeSteps.CommitKeepsHonest | src/metaharness/core/boot.py:1328-1333 | the record a `commit_graph` call leaves, if deferred, lists only flaws of the graph itself that do not block |
| RuntimeSteps.ReviewKeepsHonest | src/metaharness/core/boot.py:1079-1130 | a review keeps records so, and what it promotes with the sandbox among the gates is valid without an issue |
| RuntimeRuns.RunIsSession | src/metaharness/core/boot.py:1025-1424 | every run of the runtime on its full state is a session, and its graph is what the session's steps make of the first one |
| RuntimeRuns.RuntimeKeepsShape | src/metaharness/core/boot.py:1025-1424 | from a runtime just built, whatever is approved, the active graph always has its shape |
| RuntimeRuns.RuntimeKeepsBoundary | src/metaharness/core/boot.py:1025-1424 | from a runtime just built, without approvals, the connections around a manifest-protected component stay those of the first graph cut over to |
| RuntimeRuns.RuntimeStaysBroken | src/metaharness/core/boot.py:1174-1230 | once a drain did not open or a replayed emission raised, no call of the runtime cuts over again |
| RuntimeRuns.NeverForced | src/metaharness/core/boot.py:1113-1118 | in every run that starts with honest records, as the empty store is, a record that a review cuts over to was judged without an issue: its report is never made valid by force |
| RuntimeCalls.CommitTurn | src/metaharness/core/boot.py:1232-1424 | a `commit_graph` call with the sandbox among its gates is a turn of a run, and leaves the state the turn names |
| RuntimeCalls.ReviewTurn | src/metaharness/core/boot.py:1025-1144 | so is a review, unless nothing is deferred under the id, which changes nothing |
| Boot.HarnessRuntime.AuthorizeProtectedPromotion | src/metaharness/core/boot.py:747-755 | the approval then counts for that actor and for nobody else; all other approvals are as before |
| Boot.HarnessRuntime.PreparePromotion | src/metaharness/core/boot.py:1243-1312 | the report lists exactly what is due for a candidate approved or not; what is authorized is exactly what the candidate affects if approved, and nothing otherwise; the report blocks exactly when the graph is not ready or an issue not waived blocks, and is valid once it does not block and the sandbox passes |
| Boot.HarnessRuntime.ValidateCandidateReadiness | src/metaharness/core/boot.py:793-824 | exactly one kind of issue for each node that is not ready and, if demanded, for each target without a handler |
| Boot.HarnessRuntime.CutoverGraphWithDrain | src/metaharness/core/boot.py:1174-1230 | exactly the drained cutover whose meaning `RuntimeSteps.CutoverMeans` gives, failed drains with all they leave included; when the drain opens, each known component of the graph is suspended once in order of its first node and resumed in reverse |
| Boot.HarnessRuntime.Settle | src/metaharness/core/boot.py:1391-1398 | phases recorded, then probes; refused exactly when a phase change is illegal, and an unhealthy graph is rolled back |
| Boot.HarnessRuntime.TurnDown | src/metaharness/core/boot.py:1333-1371 | the record, the phases up to the first illegal change, and the event, published only if no phase change raised |
| Boot.HarnessRuntime.Judge | src/metaharness/core/boot.py:1242-1327 | admitted exactly when admissible, deferred exactly when deferrable; report and authorized subjects as `PreparePromotion` states them |
| Boot.HarnessRuntime.CommitGraph | src/metaharness/core/boot.py:1232-1424 | ends exactly as admission, announcement, drain, replays, phases, probes and the event after the commit say, or as the refusal's phases and event do; the report and what is authorized by the approval exactly; graph, phases, hooks, record, events told and drains accordingly |
| Boot.HarnessRuntime.ReviewDeferredCandidate | src/metaharness/core/boot.py:1025-1144 | reviews the last deferred record of the id and promotes it under its old number, or records the refusal; records, phases and drains for every way to end |
| LongestPath.DepthSearch.Explore | src/metaharness/core/assembly.py:452-461 | one memoised exploration: the depth is the length of a real walk over explored nodes, the memo stays exact where no cycle was met |
| LongestPath.LongestDependencyPath | src/metaharness/core/assembly.py:441-463 | exactly the node count of a longest walk on acyclic graphs; on any graph the length of a real walk without repetition but for its last node, at most n + 1, and at least that of a closed walk once a cycle is reachable |
| LongestPath.TwoCycle | src/metaharness/core/assembly.py:441-463 | on a cycle of two components the result is three |
| LongestPath.AssemblyIndex | src/metaharness/core/assembly.py:258-319 | after dropping duplicates and strangers the index is that of the whole dependency graph: exact when acyclic, otherwise the length of a real walk that spans a cycle, at most n + 1 |
| BootOrder.BuildCapabilityIndex | src/metaharness/sdk/dependency.py:28-35 | lists exactly the providers of each capability |
| BootOrder.BuildGraph | src/metaharness/sdk/dependency.py:49-81 | reports a missing dependency exactly when there is one; otherwise both maps hold exactly the dependency edges |
| BootOrder.KahnLoop | src/metaharness/sdk/dependency.py:83-93 | the deque loop lists Kahn's order and leaves each node with its unlisted predecessors |
| BootOrder.KahnTopological | src/metaharness/sdk/dependency.py:83-93 | nodes are listed once and after all their predecessors |
| BootOrder.KahnLists | src/metaharness/sdk/dependency.py:83-97 | a node is listed exactly when it is neither on nor downstream of a cycle |
| BootOrder.KahnComplete | src/metaharness/sdk/dependency.py:95-97 | every node is listed exactly when there is no cycle |
| BootOrder.KahnInTurn | src/metaharness/sdk/dependency.py:83-93 | the exact order: a node comes before another when the last of its predecessors is listed earlier, or is the same and its id is less |
| BootOrder.ResolveBootOrder | src/metaharness/sdk/dependency.py:38-99 | a missing dependency exactly when there is one; otherwise an order exactly when acyclic, else the nodes on or downstream of a cycle |
| BootOrder.DependenciesFirst | src/metaharness/sdk/dependency.py:38-99 | every dependency comes before its dependant |
| BootOrder.OrderIsPermutation | src/metaharness/sdk/dependency.py:38-99 | with distinct ids the order is a permutation of the manifests |
| BootOrder.OrderIndependent | src/metaharness/sdk/dependency.py:28-99 | permuting manifests with distinct ids changes neither whether they resolve nor the order |
| Provenance.ProvGraph.Relate | src/metaharness/provenance/evidence.py:106-115 | appends the relation with its attributes and changes nothing else |
| Provenance.ProvGraph.AncestorsOf | src/metaharness/provenance/query.py:24-37 | the sorted list of exactly the ancestors, on cyclic graphs too; terminates |
| Provenance.ProvGraph.DescendantsOf | src/metaharness/provenance/query.py:39-52 | the sorted list of exactly the descendants |
| Provenance.Closure | src/metaharness/provenance/query.py:27-36 | the worklist finds exactly what one edge or more reaches |
| Provenance.AncestorsExact | src/metaharness/provenance/query.py:24-37 | ancestors are exactly the nodes reached by one or more derivations |
| Provenance.AncestorDescendantDuality | src/metaharness/provenance/query.py:24-52 | x is an ancestor of y if and only if y is a descendant of x |
| Provenance.AncestorsTransitive | src/metaharness/provenance/query.py:24-37 | ancestors of ancestors are ancestors |
| CounterFactual.Depths | src/metaharness/provenance/counter_factual.py:116-130 | breadth-first search assigns exactly the reached nodes their shortest distance |
| CounterFactual.DerivationDepth | src/metaharness/provenance/counter_factual.py:110-131 | the largest shortest distance from the root, 0 when there is no such entity |
| CounterFactual.DeepestChainExactly | src/metaharness/provenance/counter_factual.py:110-131 | the score is the length of the deepest chain exactly when the reached nodes have levels that start at 0, rise along every edge and never exceed it |
| CounterFactual.ChainsAreDistancesExactly | src/metaharness/provenance/counter_factual.py:110-131 | chains are as long as the distance of their end exactly when no reached edge skips a level |
| CounterFactual.ShortcutHidesChain | src/metaharness/provenance/counter_factual.py:110-131 | a chain of two with a shortcut scores one |
| CounterFactual.CounterFactualDiagnosis.Prune | src/metaharness/provenance/counter_factual.py:75-93 | a fresh graph without the target among entities, activities and agents and without the relations that touch it, in the order they had; the original stays as it is |
| CounterFactual.CounterFactualDiagnosis.Score | src/metaharness/provenance/counter_factual.py:59-73 | one result per hypothesis in order, each the difference against the same baseline; history extended |
| CounterFactual.PrunedReachability | src/metaharness/provenance/counter_factual.py:75-93 | reachability after pruning is reachability by paths around the removed node |
| CounterFactual.PruningOnlyLengthens | src/metaharness/provenance/counter_factual.py:75-93 | what is still reached is reached no sooner |
| CounterFactual.DistanceKeptExactly | src/metaharness/provenance/counter_factual.py:75-93 | a distance survives exactly when some shortest walk avoids the removed node |
| Merkle.MerkleTree.Append | src/metaharness/provenance/merkle.py:41-46 | one more leaf; the cached root is dropped |
| Merkle.MerkleTree.RootHash | src/metaharness/provenance/merkle.py:53-70 | the root of what the tree holds now, cached or not |
| Merkle.MerkleTree.ProofFor | src/metaharness/provenance/merkle.py:81-107 | the inclusion proof of any leaf, an index error exactly out of range |
| Merkle.MerkleTree.Verify | src/metaharness/provenance/merkle.py:109-122 | accepts exactly the proofs that lead from the payload to the expected root |
| Merkle.EveryLeafProves | src/metaharness/provenance/merkle.py:53-122 | completeness: at every leaf count, odd levels included, the proof of every index is accepted |
| Merkle.ProofIsLogarithmic | src/metaharness/provenance/merkle.py:81-107 | the length of a proof is the least d with 2^d at or above the leaf count |
| Merkle.TreeRootBinds | src/metaharness/provenance/merkle.py:53-70 | lists of equal length with equal roots are equal or show a collision |
| Merkle.AcceptedProofBinds | src/metaharness/provenance/merkle.py:109-122 | an accepted proof with the directions of an index is for that leaf's payload and siblings, or shows a collision |
| Merkle.SameRootExactly | src/metaharness/provenance/merkle.py:53-70 | equally high trees share a root exactly when their filled-up leaf lists are the same, or a collision shows |
| Merkle.SameRootAcrossHeights | src/metaharness/provenance/merkle.py:53-70 | a tree d levels higher than another has its root exactly when its level d, filled up, is the other's leaf digests, or a collision shows |
| Merkle.DuplicatedTailSameRoot | src/metaharness/provenance/merkle.py:59-68 | repeating the last of an odd number of leaves keeps the root |
| Merkle.PairSameRootAsInnerLeaf | src/metaharness/provenance/merkle.py:59-68 | leaves and inner nodes are hashed alike |
| Merkle.RootOfPairs | src/metaharness/provenance/merkle.py:53-70 | roots from the leaves up: the hash of nothing, of one leaf, or the root over the texts its pairs are hashed from |
| AuditLogs.AuditLog.constructor | src/metaharness/provenance/audit_log.py:48-53 | opening a file rebuilds indices and roots from the entries of its lines |
| AuditLogs.AuditLog.Load | src/metaharness/provenance/audit_log.py:55-72 | blank lines skipped, every entry anchored in order, stored indices and roots ignored |
| AuditLogs.AuditLog.Append | src/metaharness/provenance/audit_log.py:76-97 | one more record and line; record i carries index i and the root of the first i + 1 leaves |
| AuditLogs.AuditLog.ProofFor | src/metaharness/provenance/audit_log.py:138-141 | the tree's proof for the record's index |
| AuditLogs.AuditLog.Verify | src/metaharness/provenance/audit_log.py:143-156 | accepts every record of the log; otherwise exactly the records included at their index |
| AuditLogs.AuditLog.Reopened | src/metaharness/provenance/audit_log.py:48-72 | reloading gives the same records, indices and roots |
| AuditLogs.EarlierRecordsVerify | src/metaharness/provenance/audit_log.py:143-156 | however many appends followed, an earlier record still verifies under the current root and is unchanged |
| AuditLogs.VerifiedIsStored | src/metaharness/provenance/audit_log.py:143-156 | a record that verifies at an index says what the log holds there, or a collision shows |
| AuditLogs.SameRootSameHistory | src/metaharness/provenance/audit_log.py:86-90 | equally long histories that end in the same root are the same, or a collision shows |
| Saga.SagaRollback.Run | src/metaharness/hotreload/saga.py:55-70 | succeeds exactly when no step raises; otherwise exactly the completed prefix is compensated in reverse from the world the failing step left |
| Saga.SagaRollback.Compensate | src/metaharness/hotreload/saga.py:72-89 | reverse order; a raising compensation does not stop the others |
| Saga.FailedSagaRestores | src/metaharness/hotreload/saga.py:55-89 | if each completed step is taken back by its compensation and the failing step left no trace, the initial world returns |
| Saga.RaisingStepStays | src/metaharness/hotreload/saga.py:60-70 | what a raising step did before it raised, if no compensation interferes with it, is exactly what the failed saga leaves behind |
| Saga.MarkedExactly | src/metaharness/hotreload/saga.py:72-89 | each completed step's flag tells whether its own compensation, on the world it found, returned, and its error says so if not |
| Swap.HotSwap | src/metaharness/hotreload/swap.py:69-264 | the whole outcome, hook by hook: unapproved protected components are not touched; success exactly when every hook and the observation go well, with checkpoint, migrated state and both components as the hooks left them; otherwise the failing hook's error, the flags of the compensations and the components as the roll-back left them |
| Swap.CompletedSwap | src/metaharness/hotreload/swap.py:133-227 | a swap completes exactly when the outgoing component is suspended (by the swap or a drain), exported and deactivated, its state migrated by the adapter or else the incoming component, the incoming one resumed with the migrated state, and the observation passed |
| Swap.FailedSwapReports | src/metaharness/hotreload/swap.py:133-264 | the results of a failed swap: the steps up to the failing one with its own error, each completed one flagged exactly when its compensation returned |
| Swap.FailedSwapResumesOutgoing | src/metaharness/hotreload/swap.py:133-227 | where a failed swap leaves both components, hook by hook; the outgoing one resumed from its checkpoint exactly when the failing step came after the capture |
| Swap.FailedSwapRestores | src/metaharness/hotreload/swap.py:133-227 | with reversible hooks and a failing step without effect both components are as before |
| Polling.Strategy.FibLoop | src/metaharness/sdk/execution.py:181-189 | the loop computes the Fibonacci numbers |
| Polling.Strategy.NextDelay | src/metaharness/sdk/execution.py:162-165 | the capped delay; an error exactly for attempts below 1 |
| Polling.Strategy.Schedule | src/metaharness/sdk/execution.py:167-179 | the delays under both caps; an error exactly for negative counts |
| Polling.Strategy.PlannedSum | src/metaharness/sdk/execution.py:167-179 | a schedule sums to the smaller of max_total_wait and the sum of the capped delays |
| Polling.Strategy.PlannedPrefix | src/metaharness/sdk/execution.py:167-179 | a schedule for fewer attempts is a prefix of one for more |
| Polling.Strategy.PlannedLength | src/metaharness/sdk/execution.py:167-179 | one delay per attempt until the total is used up |
| Polling.Strategy.AttemptsBound | src/metaharness/sdk/execution.py:167-179 | at most max_total_wait / min(base_delay, max_delay) delays, rounded up |
| Polling.MakeStrategy | src/metaharness/sdk/execution.py:155-160 | accepts exactly positive parameters |
| Execution.ExecutionLifecycleService.PollUntilTerminal | src/metaharness/core/execution.py:175-213 | sleeps exactly a prefix of the schedule between unfinished polls, ends with the first terminal status or a time-out when the total is used up, notes running once; without a strategy it is unfinished at a limit exactly when no poll or sleep before it ends the loop |
| Execution.ExecutionLifecycleService.Run | src/metaharness/core/execution.py:68-155 | the store gains exactly the run's events; handle, artifact and exception agree with the way out |
| Execution.EventsOfRun | src/metaharness/core/execution.py:68-213 | submitted first, one running event exactly when a poll said so, exactly one terminal event and it comes last, missing exactly when the run is unfinished or was interrupted and its cancel hook raised; completed exactly with an artifact, cancelled exactly when job or run was, failed otherwise |
| Execution.PollRunUnique | src/metaharness/core/execution.py:175-213 | the executor's answers determine the sleeps and the way out |
| Execution.SleepsBounded | src/metaharness/core/execution.py:175-221 | with a strategy a run sleeps no longer than max_total_wait, in a bounded number of sleeps |
| Percentiles.PercentilesAgree | src/metaharness/cli.py:157-167 | both percentile functions agree on every non-empty list and quantile |
| Percentiles.PercentileInterpolates | src/metaharness/observability/metrics.py:88-98 | the samples stand at equal steps from 0 to 1, and between two of them the percentile moves on a straight line |
| Percentiles.PercentileMonotone | src/metaharness/observability/metrics.py:88-98 | the percentile rises with the quantile, from the least sample to the largest |
| Percentiles.MedianIsPercentile | src/metaharness/cli.py:170-178 | the median is the percentile at one half |
| Percentiles.SpreadNeverNegative | src/metaharness/cli.py:170-178 | the interquartile range is between 0 and the range, the median within the range |
| Percentiles.TimingRange | src/metaharness/cli.py:170-178 | the least and the largest of the samples |
| Percentiles.TimingQuarters | src/metaharness/cli.py:170-178 | the median is the percentile at one half, the interquartile range the difference of those at the quarters |

## Left out

What the model does not capture:

- Floating point: delays, timestamps and samples are reals; rounding is not modelled.
- SHA-256 and JSON: the hash is any function to 64-character digests and the canonical text any function of an entry, injective where a lemma says so; encoding of text to bytes is the identity.
- Component hooks (`suspend`, `resume`), probes, gates and the policy reviewer never raise; a hook that raised in the middle of a drain would leave the drains as they stand. Event subscribers may raise, but publish, emit and subscribe nothing themselves.
- Handlers, component hooks, probes, the policy reviewer, safety gates other than the sandbox, executors, migration adapters and observation windows are parameters. Handlers, subscribers and hooks are synchronous and answer; handlers may raise and publish events, but emissions nested inside handlers are not modelled.
- asyncio: `emit` and `emit_async`, `publish` and `publish_async` are one operation each. Cancellation appears only in `Execution`.
- UUIDs, clocks, session events, provenance and audit side effects of `commit_graph` and `swap`, selection records and assembly records: bookkeeping that no property above needs.
- Candidates that come from outside (`ingest_candidate_record`, `defer_candidate`, `review_external_candidate`): the runs of the runtime are series of `commit_graph` and `review_deferred_candidate` calls.
- The promotion policies checked before staging, recovery and discovery at boot, identity boundary, shadow tester internals, the assembly health gate's internals, resource quotas, the research loop, benchmark runners and the command line.
- Callers that mutate returned records, checkpoints or snapshots: entries that the source returns by reference are values here.
- Order of issues found while iterating over sets and dictionaries, and of references listed over dictionaries: contracts speak of which there are.
- ConnectionEngine.ConnectionEngine.Emit: the drain check and the entry into the in-flight count are one step; the two-step form is the subject of `Interleaving`, which models the stages of emissions, the drain phases and the table, but not payloads, loads outside a drain or replays as a separate kind of emission.
- Execution.ExecutionLifecycleService.PollUntilTerminal: a loop without a strategy may be endless, so it is followed up to any given number of sleeps and reported unfinished there. Strategies other than the Fibonacci one are not modelled.
- Provenance.Closure: the two worklist loops of the source differ only in direction and are one method here.
- Saga.SagaRollback.Run: flags are stated for distinct step names, as the five of a hot swap are; with equal names the source flags the first of them.
- Swap.HotSwap: the checkpoint store with its retention is not modelled, only the checkpoint the swap works with; an absent migrated state is the empty one.
- BootOrder.ResolveBootOrder: which of several missing dependencies is reported follows the manifests and their lists, but is arbitrary among the capabilities of a set.
- CounterFactual.CounterFactualDiagnosis.Score: the evaluator is any function of what a graph holds; the depth evaluator is proved separately.
- Percentiles.PercentilesAgree: quantiles lie between 0 and 1, the only ones the source asks for.
