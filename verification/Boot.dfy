/** The runtime: `commit_graph` from staging through the gates, the drained cutover and the health check. */
module Boot {
  import opened Ids
  import opened Digraph
  import opened Models
  import opened GraphShape
  import opened Validators
  import opened GraphVersions
  import opened VersionRuns
  import opened EventBus
  import opened Routing
  import opened ConnectionEngine
  import opened Lifecycle
  import opened Drain
  import opened DrainRuns
  import opened PhaseRuns
  import opened SafetyPipeline
  import opened GraphRuns
  import opened Sessions
  import opened Judgement
  import opened RuntimeSteps

  class HarnessRuntime {
    const registry: ComponentRegistry
    const store: GraphVersionStore
    const engine: ConnectionEngine
    const bus: EventBus
    const lifecycle: LifecycleTracker
    const coordinator: DrainCoordinator
    const autoRollback: AutoRollback
    const requireRouteHandlers: bool
    var protectedApprovals: map<string, string>

    constructor (catalogue: Catalogue, components: set<Id>, policy: DrainPolicy, requireRouteHandlers: bool)
      ensures Wired() && fresh(registry) && fresh(store) && fresh(engine) && fresh(bus) && fresh(lifecycle)
              && fresh(coordinator) && fresh(autoRollback)
      ensures registry.catalogue == catalogue && forall id, who :: !Approved(id, who)
      ensures Setting() == RuntimeSteps.Setting(components, policy)
      ensures State() == RuntimeState(
                           StoreState(None, None, [], map[], map[], 50), None,
                           EngineState(map[], map[], None, [], 0, 0, []),
                           BusState(map[], [], [], None, [], 0), map[], [], [], false, [])
    {
      var theRegistry := new ComponentRegistry(catalogue);
      var theStore := new GraphVersionStore();
      var theBus := new EventBus();
      var tracker := new LifecycleTracker();
      var theEngine := new ConnectionEngine(theRegistry, theStore, theBus);
      registry, store, bus, lifecycle, engine := theRegistry, theStore, theBus, tracker, theEngine;
      coordinator := new DrainCoordinator(theEngine, components, tracker, policy);
      autoRollback := new AutoRollback(theEngine);
      this.requireRouteHandlers := requireRouteHandlers;
      protectedApprovals := map[];
    }

    ghost predicate Wired()
    {
      && engine.registry == registry && engine.store == store && engine.bus == bus
      && coordinator.engine == engine && coordinator.bus == bus && coordinator.lifecycle == lifecycle
      && autoRollback.engine == engine
    }

    ghost function State(): RuntimeState
      reads registry, store, engine, bus, lifecycle, coordinator
    {
      RuntimeState(store.State(), registry.activeGraph, engine.State(), bus.State(), lifecycle.phases, store.candidates,
                   registry.graphVersions, coordinator.currentEpoch != null, coordinator.hooks)
    }

    ghost function Setting(): Setting
      reads coordinator
    {
      RuntimeSteps.Setting(coordinator.components, coordinator.policy)
    }

    /** From now on this approval is given to that actor and to nobody else; other approvals stay as they are. */
    method AuthorizeProtectedPromotion(approvalId: string, actor: string)
      modifies this
      ensures forall who :: Approved(Some(approvalId), who) <==> who == Some(actor)
      ensures forall id, who :: id != Some(approvalId) ==>
                (Approved(id, who) <==> Granted(old(protectedApprovals), id, who))
    {
      protectedApprovals := protectedApprovals[approvalId := actor];
    }

    predicate Approved(approvalId: Option<string>, actor: Option<string>)
      reads this
    {
      Granted(protectedApprovals, approvalId, actor)
    }

    /** The targets without a handler, where handlers are demanded. */
    ghost function Missing(g: GraphSnapshot): set<string>
      reads engine
    {
      if requireRouteHandlers then MissingTargets(g.edges, engine.handlers.Keys) else {}
    }

    ghost predicate Ready(g: GraphSnapshot, unready: set<Id>)
      reads engine
    {
      Missing(g) == {} && NodeIds(g.nodes) !! unready
    }

    method ValidateCandidateReadiness(g: GraphSnapshot, unready: set<Id>) returns (issues: seq<ValidationIssue>)
      ensures forall i :: i in issues <==> ReadinessDue(g, Missing(g), unready, i)
      ensures issues == [] <==> Ready(g, unready)
      ensures Ready(g, unready) <==>
                && (requireRouteHandlers ==> MissingTargets(g.edges, engine.handlers.Keys) == {})
                && NodeIds(g.nodes) !! unready
    {
      issues := [];
      if requireRouteHandlers {
        issues := MissingHandlerIssues(g);
      }
      for k := 0 to |g.nodes|
        invariant forall i :: i in issues <==>
                    ReadinessDue(g, Missing(g), NodeIds(g.nodes[..k]) * unready, i)
      {
        assert g.nodes[..k + 1] == g.nodes[..k] + [g.nodes[k]];
        assert NodeIds(g.nodes[..k + 1]) == NodeIds(g.nodes[..k]) + {g.nodes[k].componentId};
        assert g.nodes[k] in g.nodes && g.nodes[k].componentId in NodeIds(g.nodes);
        if g.nodes[k].componentId in unready {
          issues := issues + [ValidationIssue(ComponentNotReady, g.nodes[k].componentId, Readiness, true)];
        }
      }
      assert g.nodes[..|g.nodes|] == g.nodes;
      ReadyExactly(g, Missing(g), unready, issues);
    }

    method MissingHandlerIssues(g: GraphSnapshot) returns (issues: seq<ValidationIssue>)
      ensures forall i :: i in issues <==>
                i.subject in MissingTargets(g.edges, engine.handlers.Keys)
                && i == ValidationIssue(MissingRouteHandler, i.subject, Readiness, true)
    {
      var missing := engine.MissingRequiredHandlers(g);
      issues := seq(|missing|, k requires 0 <= k < |missing| =>
        ValidationIssue(MissingRouteHandler, missing[k], Readiness, true));
      forall i: ValidationIssue |
        i.subject in missing && i == ValidationIssue(MissingRouteHandler, i.subject, Readiness, true)
        ensures i in issues
      {
        var k :| 0 <= k < |missing| && missing[k] == i.subject;
        assert issues[k] == i;
      }
    }

    /** Staging, readiness and protection: everything before the gates. */
    method PreparePromotion(pending: PendingConnectionSet, unready: set<Id>, approved: bool)
      returns (candidate: GraphSnapshot, report: ValidationReport, authorized: set<string>)
      requires Wired()
      modifies registry`candidateGraph
      ensures IsNextVersion(Known(store.State()), candidate.graphVersion)
      ensures candidate.nodes == pending.nodes && candidate.edges == pending.edges
      ensures registry.candidateGraph == Some(candidate)
      ensures AuthorizedFor(authorized, registry.catalogue, registry.activeGraph, candidate, approved)
      ensures JudgedReport(report, registry.catalogue, registry.activeGraph, candidate,
                           Missing(candidate), unready, approved)
      ensures Blocks(report.issues) <==>
              !(Ready(candidate, unready)
                 && NothingBlocks(registry.catalogue, registry.activeGraph, candidate, approved))
      ensures !Blocks(report.issues) && Passes(registry.catalogue, registry.activeGraph, candidate, authorized)
              ==> report.valid
      ensures LastingFlaws(registry.catalogue, candidate, report.issues)
    {
      var staged: ValidationReport;
      candidate, staged := engine.Stage(pending);
      var readiness := ValidateCandidateReadiness(candidate, unready);
      var combined := if readiness == [] then staged else ValidationReport(false, staged.issues + readiness);
      var affected := ProtectedSubjects(combined.issues);
      authorized := if approved then affected else {};
      if approved {
        report := ValidationReport(Unprotected(combined.issues) == [], Unprotected(combined.issues));
      } else if affected == {} {
        report := combined;
      } else {
        var subjects := SortIds(affected);
        report := ValidationReport(false, combined.issues + AuthorizationIssues(subjects));
      }
      PreparedReport(registry.catalogue, registry.activeGraph, candidate, staged, readiness, combined,
                     Missing(candidate), unready, approved);
    }

    /** What other threads emit and publish while an epoch is open. */
    method RunTraffic(ops: seq<EpochOp>)
      requires Wired() && TrafficOnly(ops)
      requires engine.drainEpoch.Some? && bus.drainEpoch.Some?
      modifies engine, bus
      ensures System(engine.State(), bus.State()) == EpochRun(old(System(engine.State(), bus.State())), ops)
      ensures engine.drainEpoch.Some? && bus.drainEpoch.Some?
    {
      ghost var before := System(engine.State(), bus.State());
      for k := 0 to |ops|
        invariant System(engine.State(), bus.State()) == EpochRun(before, ops[..k])
        invariant engine.drainEpoch.Some? && bus.drainEpoch.Some?
      {
        assert ops[..k + 1][..k] == ops[..k];
        assert ops[k] in ops;
        match ops[k]
        case RouteOp(r) =>
          var ok, results := engine.Emit(r.source, r.payload, r.asyncMode);
          assert BufferedRoute(r.source, r.payload, r.asyncMode) == r;
        case EventOp(e) =>
          var ok, heard := bus.Publish(e);
        case CutoverOp(_) =>
      }
      assert ops[..|ops|] == ops;
    }

    /**
     * `_cutover_graph_with_drain`: open an epoch, load the graph, close the
     * epoch. With `report` the engine commits; without it the store does.
     */
    method CutoverGraphWithDrain(
      candidateId: string, g: GraphSnapshot, report: Option<ValidationReport>, w: Surroundings)
      returns (outcome: CutoverOutcome)
      requires Wired() && Quiet(w) && (report.Some? ==> report.value.valid)
      modifies engine, bus, store, registry`activeGraph, registry`graphVersions, lifecycle
      modifies coordinator`currentEpoch, coordinator`hooks, coordinator`reports
      ensures (State(), outcome) == DrainedCutover(old(State()), candidateId, g, report, Setting(), w)
      ensures HooksRun(old(coordinator.hooks), coordinator.hooks, !outcome.DrainRefused?, g.nodes, Setting().components)
    {
      var begin, epoch := OpenEpoch(candidateId, g);
      if begin != Begun {
        return DrainRefused(begin);
      }
      CutoverInSteps(old(State()), candidateId, g, report, Setting(), w);
      var closed := LoadAndClose(epoch, candidateId, g, report, w);
      outcome := CutoverEnd(closed);
    }

    /** The load while the epoch is open, and the end of the epoch. */
    method LoadAndClose(
      epoch: DrainEpoch, candidateId: string, g: GraphSnapshot, report: Option<ValidationReport>, w: Surroundings)
      returns (how: Closing)
      requires Wired() && Quiet(w) && (report.Some? ==> report.value.valid)
      requires engine.drainEpoch.Some? && bus.drainEpoch.Some? && coordinator.currentEpoch == epoch
      requires forall c :: c in epoch.suspendedComponents ==> c in coordinator.components
      modifies engine, bus, store, registry`activeGraph, registry`graphVersions, lifecycle, epoch
      modifies coordinator`currentEpoch, coordinator`hooks, coordinator`reports
      ensures (State(), how) == Closed(LoadedUnderDrain(old(State()), candidateId, g, report, w),
                                       old(epoch.previousPhases), old(epoch.suspendedComponents), Setting())
    {
      LoadUnderDrain(candidateId, g, report, w);
      how := CloseEpoch(epoch);
    }

    method OpenEpoch(candidateId: string, g: GraphSnapshot) returns (begin: BeginOutcome, epoch: DrainEpoch)
      requires Wired()
      modifies engine, bus, lifecycle, coordinator`currentEpoch, coordinator`hooks
      ensures fresh(epoch) && begin == old(State()).Opening()
      ensures begin != Begun ==> State() == NotOpened(old(State()), candidateId, g, Setting())
      ensures begin == Begun ==>
                var targets := Suspendable(g, coordinator.components);
                && State() == Suspending(old(State()), candidateId, g, Setting())
                && engine.drainEpoch.Some? && bus.drainEpoch.Some? && coordinator.currentEpoch == epoch
                && epoch.suspendedComponents == targets
                && epoch.previousPhases == Remembered(old(lifecycle.phases), targets)
    {
      begin, epoch := coordinator.Begin(EpochId(candidateId, g), NodeIdList(g.nodes));
    }

    /** When a replayed emission or event raises, giving the epoch up raises as well, and changes nothing. */
    method CloseEpoch(epoch: DrainEpoch) returns (how: Closing)
      requires Wired() && coordinator.currentEpoch == epoch
      requires forall c :: c in epoch.suspendedComponents ==> c in coordinator.components
      modifies engine, bus, lifecycle, epoch
      modifies coordinator`currentEpoch, coordinator`hooks, coordinator`reports
      ensures (State(), how)
           == Closed(old(State()), old(epoch.previousPhases), old(epoch.suspendedComponents), Setting())
    {
      PresentAll(epoch.suspendedComponents, coordinator.components);
      var completed := coordinator.Complete(epoch);
      if completed == Ended {
        return Returned;
      }
      var aborted := coordinator.Abort(epoch);
      how := if completed == EndOutcome.ReplayRaised then RoutesRaised else EventsUnheard;
    }

    /** The open epoch: traffic, the new graph, more traffic. */
    method LoadUnderDrain(candidateId: string, g: GraphSnapshot, report: Option<ValidationReport>, w: Surroundings)
      requires Wired() && Quiet(w) && (report.Some? ==> report.value.valid)
      requires engine.drainEpoch.Some? && bus.drainEpoch.Some?
      modifies engine, bus, store, registry`activeGraph, registry`graphVersions
      ensures State() == LoadedUnderDrain(old(State()), candidateId, g, report, w)
    {
      ghost var before := State();
      RunTraffic(w.before);
      LoadNow(candidateId, g, report);
      RunTraffic(w.after);
      TrafficAround(before.Traffic(), w.before, CutoverOp(g.edges), w.after);
    }

    method LoadNow(candidateId: string, g: GraphSnapshot, report: Option<ValidationReport>)
      requires Wired() && (report.Some? ==> report.value.valid)
      modifies engine`routeTable, store, registry`activeGraph, registry`graphVersions
      ensures State() == LoadedOnce(old(State()), candidateId, g, report)
    {
      if report.None? {
        store.Commit(g);
        engine.LoadGraph(g);
      } else {
        var version := engine.Commit(candidateId, g, report.value);
      }
      registry.RecordGraphVersion(g.graphVersion);
    }

    method RecordCommitPhases(nodes: seq<ComponentNode>) returns (ok: bool)
      modifies lifecycle
      ensures (lifecycle.phases, ok) == CommitPhases(old(lifecycle.phases), nodes)
    {
      ghost var p0 := lifecycle.phases;
      for k := 0 to |nodes|
        invariant (lifecycle.phases, true) == CommitPhases(p0, nodes[..k])
      {
        var c := nodes[k].componentId;
        assert nodes[..k + 1][..k] == nodes[..k];
        if c in lifecycle.phases && lifecycle.phases[c] == Phase.Committed {
          continue;
        }
        ok := lifecycle.Record(c, ValidatedDynamic);
        if ok {
          ok := lifecycle.Record(c, Activated);
        }
        if ok {
          ok := lifecycle.Record(c, Phase.Committed);
        }
        if !ok {
          CommitPhasesStop(p0, nodes, k + 1);
          return;
        }
      }
      assert nodes[..|nodes|] == nodes;
      ok := true;
    }

    method RecordRejectPhases(nodes: seq<ComponentNode>, deferred: bool) returns (ok: bool)
      modifies lifecycle
      ensures (lifecycle.phases, ok) == RejectPhases(old(lifecycle.phases), nodes, deferred)
    {
      ghost var p0 := lifecycle.phases;
      for k := 0 to |nodes|
        invariant (lifecycle.phases, true) == RejectPhases(p0, nodes[..k], deferred)
      {
        var c := nodes[k].componentId;
        assert nodes[..k + 1][..k] == nodes[..k];
        ok := true;
        if !(c in lifecycle.phases && lifecycle.phases[c] == Phase.Committed) {
          ok := lifecycle.Record(c, ValidatedDynamic);
        }
        if ok && !deferred {
          ok := lifecycle.Record(c, Failed);
        }
        if !ok {
          RejectPhasesStop(p0, nodes, deferred, k + 1);
          return;
        }
      }
      assert nodes[..|nodes|] == nodes;
      ok := true;
    }

    /** After the cutover: phases of the nodes, then the health check. */
    method Settle(g: GraphSnapshot, trackPhases: bool, probes: seq<bool>) returns (outcome: CommitOutcome)
      requires Wired()
      modifies engine`routeTable, store, registry`activeGraph, registry`graphVersions, lifecycle, autoRollback
      ensures (State(), outcome) == Settled(old(State()), g, trackPhases, probes)
    {
      if trackPhases {
        var ok := RecordCommitPhases(g.nodes);
        if !ok {
          return PhaseRefused;
        }
      }
      var healthy := autoRollback.Check(probes);
      if !healthy {
        registry.RecordGraphVersion(VersionOr(store.active, g.graphVersion));
        return Unhealthy;
      }
      outcome := CommittedVersion(g.graphVersion);
    }

    /** The drained cutover and what follows it, once a candidate was admitted and announced. */
    method Promoting(candidateId: string, g: GraphSnapshot, report: Option<ValidationReport>, w: Surroundings)
      returns (outcome: CommitOutcome)
      requires Wired() && Quiet(w) && (report.Some? ==> report.value.valid)
      modifies engine, bus, store, registry`activeGraph, registry`graphVersions, lifecycle, autoRollback
      modifies coordinator`currentEpoch, coordinator`hooks, coordinator`reports
      ensures (State(), outcome) == DrainedPromotion(old(State()), candidateId, g, report, Setting(), w)
    {
      var rollbackTarget := store.active;
      RollbackTargetKept(store.State(), g);
      var cutover := CutoverGraphWithDrain(candidateId, g, report, w);
      if cutover.DrainRefused? {
        return NotCutOver(cutover.begin);
      }
      if cutover.ReplayFailed? {
        return CommitOutcome.ReplayRaised;
      }
      if cutover.EventsFailed? {
        return CommitOutcome.EventsRaised;
      }
      assert rollbackTarget.Some? ==> store.State().rollback == rollbackTarget;
      outcome := Settle(g, report.Some?, w.probes);
    }

    /** False when a full drain buffer refuses the event or a subscriber raises on it. */
    method Announce(name: string, candidateId: string) returns (heard: bool)
      requires Wired()
      modifies bus
      ensures (State(), heard) == Announced(old(State()), name, candidateId)
    {
      var results;
      heard, results := bus.Publish(Told(name, candidateId));
    }

    /** A candidate that is turned down: recorded, its nodes' phases changed, the event published. */
    method TurnDown(
      candidateId: string, candidate: GraphSnapshot, report: ValidationReport, deferred: bool, ghost p: Promotion)
      returns (outcome: CommitOutcome)
      requires Wired() && p.candidate == candidate
      modifies store`candidates, registry`candidateGraph, lifecycle, bus
      ensures (State(), outcome) == TurnedAway(old(State()), candidateId, candidate, report, deferred)
      ensures CommitDone(old(State()), State(), outcome, candidateId, p, report, Setting())
      ensures registry.candidateGraph == None
    {
      RefusedDone(State(), candidateId, p, report, deferred, Setting());
      engine.DiscardCandidate(candidateId, candidate, report, deferred);
      var ok := RecordRejectPhases(candidate.nodes, deferred);
      if !ok {
        return RejectedMidway(deferred);
      }
      var heard := Announce(RefusalEvent(deferred), candidateId);
      outcome := if heard then Rejected(deferred) else RejectedUnheard(deferred);
    }

    /** The event before the commit, the promotion, the event after it. */
    method PromoteAdmitted(candidateId: string, g: GraphSnapshot, report: ValidationReport, w: Surroundings)
      returns (outcome: CommitOutcome)
      requires Wired() && Quiet(w) && report.valid
      modifies engine, bus, store, registry`activeGraph, registry`graphVersions, lifecycle, autoRollback
      modifies coordinator`currentEpoch, coordinator`hooks, coordinator`reports
      ensures (State(), outcome) == AdmittedPromotion(old(State()), candidateId, g, report, Setting(), w)
    {
      var announced := Announce("before_commit_graph", candidateId);
      if !announced {
        return Unannounced;
      }
      outcome := Promoting(candidateId, g, Some(report), w);
      if outcome.CommittedVersion? {
        var heard := Announce("after_commit_graph", candidateId);
        outcome := AfterEvent(outcome, heard);
      }
    }

    /** The promotion of an admitted candidate, whose report is made valid if it is not. */
    method PromoteForced(candidateId: string, report: ValidationReport, w: Surroundings, p: Promotion)
      returns (outcome: CommitOutcome)
      requires Wired() && Quiet(w)
      modifies engine, bus, store, registry`activeGraph, registry`graphVersions, lifecycle, autoRollback
      modifies coordinator`currentEpoch, coordinator`hooks, coordinator`reports
      ensures outcome == CommitEnd(old(State()), candidateId, p.candidate, Setting(), w)
      ensures CommitDone(old(State()), State(), outcome, candidateId, p, report, Setting())
    {
      AdmittedDone(State(), candidateId, p, report, Setting(), w);
      var commitReport := if report.valid then report else report.(valid := true);
      outcome := PromoteAdmitted(candidateId, p.candidate, commitReport, w);
    }

    /** Everything before the outcome is decided: staging, reports and gates. */
    method Judge(pending: PendingConnectionSet, approved: bool, w: Surroundings)
      returns (report: ValidationReport, admitted: bool, deferred: bool, p: Promotion)
      requires Wired()
      modifies registry`candidateGraph
      ensures p.cat == registry.catalogue && p.active == registry.activeGraph
      ensures p.candidate.nodes == pending.nodes && p.candidate.edges == pending.edges
      ensures IsNextVersion(Known(store.State()), p.candidate.graphVersion)
      ensures AuthorizedFor(p.authorized, p.cat, p.active, p.candidate, approved)
      ensures JudgedReport(report, p.cat, p.active, p.candidate, Missing(p.candidate), w.unready, approved)
      ensures admitted <==> Admissible(p, Ready(p.candidate, w.unready), approved, w.reviewer, w.gates)
      ensures deferred <==> Deferrable(p, Ready(p.candidate, w.unready), approved, w.reviewer, w.gates)
      ensures FairReport(report, p, Ready(p.candidate, w.unready), approved, w)
    {
      var candidate, authorized;
      candidate, report, authorized := PreparePromotion(pending, w.unready, approved);
      p := Promotion(registry.catalogue, registry.activeGraph, candidate, authorized);
      var blocked := Blocks(report.issues);
      var safety := EvaluateGraphPromotion(candidate, registry, authorized, w.reviewer, w.gates);
      admitted := !blocked && safety.allowed;
      deferred := !admitted && !blocked && Deferred(safety.results);
      assert SandboxGate in w.gates && GatesAllow(p, w.reviewer, w.gates) ==> GateAllows(SandboxGate, p);
    }

    /** What follows the judgement: the refusal or the promotion. */
    method Conclude(
      candidateId: string, p: Promotion, report: ValidationReport, admitted: bool, deferred: bool, w: Surroundings)
      returns (outcome: CommitOutcome)
      requires Wired() && Quiet(w)
      modifies engine, bus, store, registry, lifecycle, autoRollback
      modifies coordinator`currentEpoch, coordinator`hooks, coordinator`reports
      ensures registry.catalogue == old(registry.catalogue)
      ensures outcome == CallEnd(old(State()), candidateId, p.candidate, admitted, deferred, Setting(), w)
      ensures CommitDone(old(State()), State(), outcome, candidateId, p, report, Setting())
      ensures TurnedDown(outcome) ==> registry.candidateGraph == None
    {
      CallEnds(State(), candidateId, p.candidate, report, admitted, deferred, Setting(), w);
      if admitted {
        outcome := PromoteForced(candidateId, report, w, p);
      } else {
        outcome := TurnDown(candidateId, p.candidate, report, deferred, p);
      }
    }

    /**
     * `commit_graph`. The ghost results are the promotion that was judged and
     * the report: the graph takes the step of promoting its candidate, or none.
     */
    method CommitGraph(
      pending: PendingConnectionSet, candidateId: string, actor: Option<string>, approvalId: Option<string>,
      w: Surroundings)
      returns (outcome: CommitOutcome, ghost p: Promotion, ghost judged: ValidationReport)
      requires Wired() && Quiet(w)
      modifies engine, bus, store, registry, lifecycle, autoRollback
      modifies coordinator`currentEpoch, coordinator`hooks, coordinator`reports
      ensures p.cat == registry.catalogue == old(registry.catalogue) && p.active == old(registry.activeGraph)
      ensures p.candidate.nodes == pending.nodes && p.candidate.edges == pending.edges
      ensures IsNextVersion(Known(old(store.State())), p.candidate.graphVersion)
      ensures AuthorizedFor(p.authorized, p.cat, p.active, p.candidate, Approved(approvalId, actor))
      ensures JudgedReport(judged, p.cat, p.active, p.candidate, old(Missing(p.candidate)), w.unready,
                           Approved(approvalId, actor))
      ensures var ready, approved := old(Ready(p.candidate, w.unready)), Approved(approvalId, actor);
              && FairReport(judged, p, ready, approved, w)
              && outcome == CallEnd(old(State()), candidateId, p.candidate,
                                    Admissible(p, ready, approved, w.reviewer, w.gates),
                                    Deferrable(p, ready, approved, w.reviewer, w.gates), Setting(), w)
      ensures CommitDone(old(State()), State(), outcome, candidateId, p, judged, Setting())
      ensures TurnedDown(outcome) ==> registry.candidateGraph == None
    {
      var report, admitted, deferred;
      var promotion: Promotion;
      report, admitted, deferred, promotion := Judge(pending, Approved(approvalId, actor), w);
      p, judged := promotion, report;
      outcome := Conclude(candidateId, promotion, report, admitted, deferred, w);
    }

    /** `review_deferred_candidate`: the stored snapshot keeps the number it was staged with. */
    method ReviewDeferredCandidate(candidateId: string, w: Surroundings)
      returns (outcome: CommitOutcome, ghost p: Promotion, ghost k: int)
      requires Wired() && Quiet(w)
      modifies engine, bus, store, registry`activeGraph, registry`graphVersions, lifecycle, autoRollback
      modifies coordinator`currentEpoch, coordinator`hooks, coordinator`reports
      ensures outcome == NoSuchCandidate <==> k < 0
      ensures k < 0 ==>
                && State() == old(State())
                && forall j :: 0 <= j < |old(store.candidates)| ==>
                     !(old(store.candidates)[j].candidateId == candidateId && old(store.candidates)[j].deferred)
      ensures k >= 0 ==>
                && IsLastDeferred(old(store.candidates), candidateId, k)
                && p == Promotion(registry.catalogue, old(registry.activeGraph), old(store.candidates)[k].snapshot, {})
                && outcome == ReviewEnd(old(State()), p, old(store.candidates)[k], Setting(), w)
                && ReviewDone(old(State()), State(), outcome, p, old(store.candidates)[k], Setting())
    {
      var index := store.LastDeferred(candidateId);
      k := index;
      if index < 0 {
        outcome, p := NoSuchCandidate,
          Promotion(registry.catalogue, registry.activeGraph, GraphSnapshot(0, [], []), {});
      } else {
        p := Promotion(registry.catalogue, registry.activeGraph, store.candidates[index].snapshot, {});
        outcome := ReviewRecord(store.candidates[index], w);
      }
    }

    /** The gates again, and then the refusal or the promotion. */
    method ReviewRecord(candidate: CandidateRecord, w: Surroundings) returns (outcome: CommitOutcome)
      requires Wired() && Quiet(w)
      modifies engine, bus, store, registry`activeGraph, registry`graphVersions, lifecycle, autoRollback
      modifies coordinator`currentEpoch, coordinator`hooks, coordinator`reports
      ensures var p := Promotion(registry.catalogue, old(registry.activeGraph), candidate.snapshot, {});
              && outcome == ReviewEnd(old(State()), p, candidate, Setting(), w)
              && ReviewDone(old(State()), State(), outcome, p, candidate, Setting())
    {
      ghost var p := Promotion(registry.catalogue, registry.activeGraph, candidate.snapshot, {});
      var safety := EvaluateGraphPromotion(candidate.snapshot, registry, {}, w.reviewer, w.gates);
      var blocked := Blocks(candidate.report.issues);
      if blocked || !safety.allowed {
        outcome := TurnDownReviewed(candidate, !blocked && Deferred(safety.results), p);
      } else {
        outcome := PromoteReviewed(candidate, w, p);
      }
    }

    method TurnDownReviewed(candidate: CandidateRecord, deferred: bool, ghost p: Promotion)
      returns (outcome: CommitOutcome)
      requires Wired()
      modifies store`candidates, bus
      ensures outcome == RefusalEnd(deferred, true,
                                    Returns(old(State()).bus, Told(RefusalEvent(deferred), candidate.candidateId)))
      ensures ReviewDone(old(State()), State(), outcome, p, candidate, Setting())
    {
      ReviewedAwayDone(State(), p, candidate, deferred, Setting());
      store.UpdateCandidate(candidate.(promoted := false, deferred := deferred));
      var heard := Announce(RefusalEvent(deferred), candidate.candidateId);
      outcome := if heard then Rejected(deferred) else RejectedUnheard(deferred);
    }

    method PromoteReviewed(candidate: CandidateRecord, w: Surroundings, ghost p: Promotion)
      returns (outcome: CommitOutcome)
      requires Wired() && Quiet(w) && p.candidate == candidate.snapshot
      modifies engine, bus, store, registry`activeGraph, registry`graphVersions, lifecycle, autoRollback
      modifies coordinator`currentEpoch, coordinator`hooks, coordinator`reports
      ensures outcome == ReviewedEnd(old(State()), candidate, Setting(), w)
      ensures ReviewDone(old(State()), State(), outcome, p, candidate, Setting())
    {
      ReviewedPromotionDone(State(), p, candidate, Setting(), w);
      outcome := PromoteAndAdopt(candidate, w);
    }

    method PromoteAndAdopt(candidate: CandidateRecord, w: Surroundings) returns (outcome: CommitOutcome)
      requires Wired() && Quiet(w)
      modifies engine, bus, store, registry`activeGraph, registry`graphVersions, lifecycle, autoRollback
      modifies coordinator`currentEpoch, coordinator`hooks, coordinator`reports
      ensures (State(), outcome) == ReviewedPromotion(old(State()), candidate, Setting(), w)
    {
      outcome := Promoting(candidate.candidateId, candidate.snapshot, None, w);
      if outcome.CommittedVersion? {
        store.UpdateCandidate(Adopted(candidate));
        var heard := Announce("after_commit_graph", candidate.candidateId);
        outcome := AfterEvent(outcome, heard);
      }
    }
  }
}
