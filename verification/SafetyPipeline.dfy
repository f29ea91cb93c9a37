/** The gate chain a candidate graph passes before promotion, and the post-commit rollback. */
module SafetyPipeline {
  import opened Ids
  import opened Digraph
  import opened Models
  import opened GraphShape
  import opened Validators
  import opened GraphVersions
  import opened Routing
  import opened ConnectionEngine

  datatype GateDecision = Allow | Reject | Defer

  datatype GateResult = GateResult(gate: string, decision: GateDecision)

  /**
   * A gate of the chain: the sandbox validator, or one whose decision about
   * this promotion is given. Gates without a promotion hook are skipped.
   */
  datatype Gate = SandboxGate | OtherGate(name: string, decision: Option<GateDecision>)

  datatype PipelineResult = PipelineResult(
    allowed: bool, results: seq<GateResult>, rejectedBy: Option<string>)

  // -------------------------------------------------------- sandbox validator

  predicate Waived(i: ValidationIssue, authorized: set<string>) {
    i.category == ProtectedComponent && i.subject in authorized
  }

  /** What the sandbox lets through: no flaw but those an approval covers. */
  ghost predicate Passes(cat: Catalogue, active: Option<GraphSnapshot>, g: GraphSnapshot, authorized: set<string>) {
    && Acyclic(Adjacency(NodeIds(g.nodes), g.edges))
    && forall i :: Due(cat, active, g, i) ==> Waived(i, authorized)
  }

  function Unwaived(issues: seq<ValidationIssue>, authorized: set<string>): (r: seq<ValidationIssue>)
    ensures forall i :: i in r <==> i in issues && !Waived(i, authorized)
  {
    if issues == [] then []
    else
      var last := issues[|issues| - 1];
      assert issues == issues[..|issues| - 1] + [last];
      Unwaived(issues[..|issues| - 1], authorized) + (if Waived(last, authorized) then [] else [last])
  }

  method EvaluateSnapshot(g: GraphSnapshot, registry: ComponentRegistry, authorized: set<string>)
    returns (r: GateResult)
    ensures r.decision in {Allow, Reject}
    ensures r.decision == Allow <==> Passes(registry.catalogue, registry.activeGraph, g, authorized)
    ensures r.gate == "level_1_sandbox_validator"
  {
    var report := ValidateGraph(g, registry);
    var issues := if authorized != {} then Unwaived(report.issues, authorized) else report.issues;
    UnwaivedMeansPasses(registry.catalogue, registry.activeGraph, g, report, authorized, issues);
    r := GateResult("level_1_sandbox_validator", if issues == [] then Allow else Reject);
  }

  lemma UnwaivedMeansPasses(
    cat: Catalogue, active: Option<GraphSnapshot>, g: GraphSnapshot, report: ValidationReport,
    authorized: set<string>, issues: seq<ValidationIssue>)
    requires ExactReport(cat, active, g, report)
    requires forall i :: i in issues <==> i in report.issues && !Waived(i, authorized)
    ensures issues == [] <==> Passes(cat, active, g, authorized)
  {
    assert issues != [] ==> issues[0] in issues;
    DueIsNotCycle(cat, active, g);
    if issues == [] {
      assert forall i :: i in report.issues && CycleIssue(i) ==> i in issues;
      forall i | Due(cat, active, g, i) ensures Waived(i, authorized) {
        assert i in report.issues;
      }
    }
    if Passes(cat, active, g, authorized) {
      forall i ensures i !in issues {
        assert i in report.issues && i.code == CycleDetected ==> CycleIssue(i);
      }
    }
  }

  /** Whatever is approved, a graph the sandbox passes has its shape. */
  lemma PassesIsStructural(cat: Catalogue, active: Option<GraphSnapshot>, g: GraphSnapshot, authorized: set<string>)
    requires Passes(cat, active, g, authorized)
    ensures Structural(cat, g)
  {
    NoStructuralIssue(cat, active, g);
  }

  /** Without approvals the sandbox passes exactly the well-formed graphs. */
  lemma PassesUnauthorized(cat: Catalogue, active: Option<GraphSnapshot>, g: GraphSnapshot)
    ensures Passes(cat, active, g, {}) <==> WellFormed(cat, active, g)
  {
    if Passes(cat, active, g, {}) {
      forall i ensures !Due(cat, active, g, i) {
        assert !Waived(i, {});
      }
      NoStructuralIssue(cat, active, g);
      NoProtectionIssue(cat, active, g);
    }
    if WellFormed(cat, active, g) {
      forall i ensures !Due(cat, active, g, i) { WellFormedNoIssue(cat, active, g, i); }
    }
  }

  // -------------------------------------------------------------- the chain

  /** A candidate with what the gates judge it against. */
  datatype Promotion = Promotion(
    cat: Catalogue, active: Option<GraphSnapshot>, candidate: GraphSnapshot, authorized: set<string>)

  /** What one gate says about a candidate; None when it has no promotion hook. */
  ghost function Verdict(gate: Gate, p: Promotion): Option<GateDecision> {
    match gate
    case SandboxGate => Some(if Passes(p.cat, p.active, p.candidate, p.authorized) then Allow else Reject)
    case OtherGate(_, decision) => decision
  }

  ghost predicate GateAllows(gate: Gate, p: Promotion) {
    Verdict(gate, p) in {None, Some(Allow)}
  }

  function GateName(gate: Gate): string {
    match gate
    case SandboxGate => "level_1_sandbox_validator"
    case OtherGate(name, _) => name
  }

  predicate Refused(results: seq<GateResult>) {
    results != [] && results[|results| - 1].decision != Allow
  }

  /** The gate a list of results names as the refuser: that of its last entry. */
  function Refuser(results: seq<GateResult>): Option<string> {
    if Refused(results) then Some(results[|results| - 1].gate) else None
  }

  predicate Deferred(results: seq<GateResult>) {
    exists r :: r in results && r.decision == Defer
  }

  /** The results collected: those of the gates with a hook, up to and including the first refusal. */
  ghost function Consulted(gates: seq<Gate>, p: Promotion): seq<GateResult> {
    if gates == [] then []
    else
      var before, last := Consulted(gates[..|gates| - 1], p), gates[|gates| - 1];
      var verdict := Verdict(last, p);
      if Refused(before) || verdict.None? then before else before + [GateResult(GateName(last), verdict.value)]
  }

  /** Gate k is the first that does not allow. */
  ghost predicate RefusesFirst(gates: seq<Gate>, p: Promotion, k: int) {
    0 <= k < |gates| && !GateAllows(gates[k], p) && forall j :: 0 <= j < k ==> GateAllows(gates[j], p)
  }

  /** The sandbox never defers. */
  predicate Defers(gate: Gate) {
    gate.OtherGate? && gate.decision == Some(Defer)
  }

  /** Whoever refuses first, the reviewer or else a gate, defers. */
  ghost predicate DefersFirst(p: Promotion, reviewer: Option<GateDecision>, gates: seq<Gate>) {
    || reviewer == Some(Defer)
    || (reviewer in {None, Some(Allow)} && exists k :: RefusesFirst(gates, p, k) && Defers(gates[k]))
  }

  /** The chain refuses exactly when some gate does not allow. */
  lemma {:induction false} RefusedMeansSomeGate(gates: seq<Gate>, p: Promotion)
    ensures Refused(Consulted(gates, p)) <==> exists gate :: gate in gates && !GateAllows(gate, p)
  {
    if gates == [] {
    } else {
      var init, last := gates[..|gates| - 1], gates[|gates| - 1];
      assert gates == init + [last];
      RefusedMeansSomeGate(init, p);
      assert !GateAllows(last, p) ==> exists gate :: gate in gates && !GateAllows(gate, p);
    }
  }

  /** The refuser named is the first gate that does not allow, and its result is the last one collected. */
  lemma FirstRefuserNamed(gates: seq<Gate>, p: Promotion, k: nat)
    requires RefusesFirst(gates, p, k)
    ensures Refuser(Consulted(gates, p)) == Some(GateName(gates[k]))
    ensures gates[k].OtherGate? ==> gates[k].decision.Some?
    ensures Consulted(gates, p) == Consulted(gates[..k], p)
            + [GateResult(GateName(gates[k]), if gates[k].SandboxGate? then Reject else gates[k].decision.value)]
  {
    RefusedMeansSomeGate(gates[..k], p);
    assert gates[..k + 1][..k] == gates[..k];
    ConsultedStops(gates, p, k + 1);
  }

  lemma {:induction false} ConsultedStops(gates: seq<Gate>, p: Promotion, k: nat)
    requires k <= |gates| && Refused(Consulted(gates[..k], p))
    ensures Consulted(gates, p) == Consulted(gates[..k], p)
    decreases |gates| - k
  {
    if k < |gates| {
      assert gates[..k + 1][..k] == gates[..k];
      ConsultedStops(gates, p, k + 1);
    } else {
      assert gates[..k] == gates;
    }
  }

  /** The gates that have a promotion hook. */
  function Hooked(gates: seq<Gate>): seq<Gate> {
    if gates == [] then []
    else
      var last := gates[|gates| - 1];
      Hooked(gates[..|gates| - 1]) + (if last.OtherGate? && last.decision.None? then [] else [last])
  }

  /** Results under the names of these gates, in their order, all of which allow. */
  predicate AllAllowed(results: seq<GateResult>, gates: seq<Gate>) {
    && |results| == |gates|
    && forall i :: 0 <= i < |results| ==>
         && results[i].decision == Allow
         && results[i].gate == if gates[i].SandboxGate? then "level_1_sandbox_validator" else gates[i].name
  }

  /** While every gate allows, each one with a hook is consulted once, in order. */
  lemma {:induction false} AllConsulted(gates: seq<Gate>, p: Promotion)
    requires forall gate :: gate in gates ==> GateAllows(gate, p)
    ensures AllAllowed(Consulted(gates, p), Hooked(gates))
  {
    if gates == [] {
    } else {
      var init, last := gates[..|gates| - 1], gates[|gates| - 1];
      assert gates == init + [last];
      AllConsulted(init, p);
      assert GateAllows(last, p);
    }
  }

  lemma {:induction false} SomeRefusesFirst(gates: seq<Gate>, p: Promotion) returns (k: nat)
    requires exists gate :: gate in gates && !GateAllows(gate, p)
    ensures RefusesFirst(gates, p, k)
  {
    var init, last := gates[..|gates| - 1], gates[|gates| - 1];
    assert gates == init + [last];
    if exists gate :: gate in init && !GateAllows(gate, p) {
      k := SomeRefusesFirst(init, p);
    } else {
      k := |init|;
    }
  }

  /** No result before the last refuses, so the results hold a deferral exactly when the first to refuse defers. */
  lemma {:induction false} RefusedLast(gates: seq<Gate>, p: Promotion, i: nat)
    requires i < |Consulted(gates, p)| && Consulted(gates, p)[i].decision != Allow
    ensures i == |Consulted(gates, p)| - 1
  {
    if gates == [] {
    } else {
      var before := Consulted(gates[..|gates| - 1], p);
      if i < |before| {
        RefusedLast(gates[..|gates| - 1], p, i);
      }
    }
  }

  lemma DeferredExactly(gates: seq<Gate>, p: Promotion)
    ensures Deferred(Consulted(gates, p))
       <==> exists k :: RefusesFirst(gates, p, k) && Defers(gates[k])
  {
    var results := Consulted(gates, p);
    RefusedMeansSomeGate(gates, p);
    if Deferred(results) {
      var i :| 0 <= i < |results| && results[i].decision == Defer;
      RefusedLast(gates, p, i);
      var k := SomeRefusesFirst(gates, p);
      FirstRefuserNamed(gates, p, k);
      assert RefusesFirst(gates, p, k) && Defers(gates[k]);
    }
    if k :| RefusesFirst(gates, p, k) && Defers(gates[k]) {
      FirstRefuserNamed(gates, p, k);
      assert results[|results| - 1] in results;
    }
  }

  /** The result when it is up to the gates: allowed if they all allow, else rejected by the first that does not. */
  ghost predicate GatesDecide(r: PipelineResult, p: Promotion, reviewer: Option<GateDecision>, gates: seq<Gate>) {
    && (r.allowed <==> forall gate :: gate in gates ==> GateAllows(gate, p))
    && (r.allowed <==> r.rejectedBy.None?)
    && (forall k :: RefusesFirst(gates, p, k) ==> r.rejectedBy == Some(GateName(gates[k])))
    && r.results == (if reviewer.Some? then [GateResult("policy_review", Allow)] else []) + Consulted(gates, p)
  }

  /** What the pipeline reports when the reviewer leaves it to the gates. */
  ghost function LeftToGates(p: Promotion, reviewer: Option<GateDecision>, gates: seq<Gate>): PipelineResult {
    var review := if reviewer.Some? then [GateResult("policy_review", Allow)] else [];
    var walked := Consulted(gates, p);
    PipelineResult(!Refused(walked), review + walked, Refuser(walked))
  }

  lemma ReviewerDecides(p: Promotion, decision: GateDecision, gates: seq<Gate>)
    requires decision != Allow
    ensures Deferred([GateResult("policy_review", decision)]) <==> DefersFirst(p, Some(decision), gates)
  {
    assert decision == Defer ==> GateResult("policy_review", decision).decision == Defer;
  }

  lemma Decided(p: Promotion, reviewer: Option<GateDecision>, gates: seq<Gate>)
    requires reviewer in {None, Some(Allow)}
    ensures var r := LeftToGates(p, reviewer, gates);
            GatesDecide(r, p, reviewer, gates) && (Deferred(r.results) <==> DefersFirst(p, reviewer, gates))
  {
    DeferredAppended(if reviewer.Some? then [GateResult("policy_review", Allow)] else [], Consulted(gates, p));
    DeferredExactly(gates, p);
    RefusedMeansSomeGate(gates, p);
    forall k | RefusesFirst(gates, p, k) ensures Refuser(Consulted(gates, p)) == Some(GateName(gates[k])) {
      FirstRefuserNamed(gates, p, k);
    }
  }

  lemma DeferredAppended(a: seq<GateResult>, b: seq<GateResult>)
    ensures Deferred(a + b) <==> Deferred(a) || Deferred(b)
  {
    assert forall r :: r in a + b <==> r in a || r in b;
  }

  /** The gates in order; the first refusal or deferral ends the walk. */
  method RunGates(g: GraphSnapshot, registry: ComponentRegistry, authorized: set<string>, gates: seq<Gate>)
    returns (results: seq<GateResult>)
    ensures results == Consulted(gates, Promotion(registry.catalogue, registry.activeGraph, g, authorized))
  {
    ghost var p := Promotion(registry.catalogue, registry.activeGraph, g, authorized);
    results := [];
    for k := 0 to |gates|
      invariant results == Consulted(gates[..k], p) && !Refused(results)
    {
      var gate := gates[k];
      assert gates[..k + 1][..k] == gates[..k];
      if gate.OtherGate? && gate.decision.None? {
        continue;
      }
      var result: GateResult;
      if gate.SandboxGate? {
        result := EvaluateSnapshot(g, registry, authorized);
      } else {
        result := GateResult(gate.name, gate.decision.value);
      }
      results := results + [result];
      if result.decision != Allow {
        ConsultedStops(gates, p, k + 1);
        return;
      }
    }
    assert gates[..|gates|] == gates;
  }

  /**
   * `evaluate_graph_promotion`: the reviewer, if any, and then the gates. It allows exactly when the
   * reviewer and every gate with a hook do, and names the first that does not. A reviewer's decision is
   * the first result, and the only one unless it allows; the results defer exactly when the first to
   * refuse does.
   */
  method EvaluateGraphPromotion(
    g: GraphSnapshot, registry: ComponentRegistry, authorized: set<string>,
    reviewer: Option<GateDecision>, gates: seq<Gate>)
    returns (r: PipelineResult)
    ensures var p := Promotion(registry.catalogue, registry.activeGraph, g, authorized);
            if reviewer in {None, Some(Allow)} then GatesDecide(r, p, reviewer, gates) else
              && !r.allowed && r.rejectedBy == Some("policy_review")
              && r.results == [GateResult("policy_review", reviewer.value)]
    ensures Deferred(r.results)
       <==> DefersFirst(Promotion(registry.catalogue, registry.activeGraph, g, authorized), reviewer, gates)
  {
    ghost var p := Promotion(registry.catalogue, registry.activeGraph, g, authorized);
    var results: seq<GateResult> := [];
    if reviewer.Some? {
      results := [GateResult("policy_review", reviewer.value)];
      if reviewer.value != Allow {
        ReviewerDecides(p, reviewer.value, gates);
        return PipelineResult(false, results, Some("policy_review"));
      }
    }
    var walked := RunGates(g, registry, authorized, gates);
    Decided(p, reviewer, gates);
    if walked != [] && walked[|walked| - 1].decision != Allow {
      r := PipelineResult(false, results + walked, Some(walked[|walked| - 1].gate));
    } else {
      r := PipelineResult(true, results + walked, None);
    }
    assert r == LeftToGates(p, reviewer, gates);
  }

  // ----------------------------------------------------- post-commit checks

  datatype RollbackEvent = RollbackEvent(fromVersion: int, toVersion: Option<int>)

  class AutoRollback {
    const engine: ConnectionEngine
    var events: seq<RollbackEvent>

    constructor (engine: ConnectionEngine)
      ensures this.engine == engine && events == []
    {
      this.engine, events := engine, [];
    }

    /** The first failing probe rolls the engine back once; `healthy` when none fails. */
    method Check(probes: seq<bool>) returns (healthy: bool)
      modifies this`events, engine`routeTable, engine.store, engine.registry`activeGraph
      ensures healthy <==> forall k :: 0 <= k < |probes| ==> probes[k]
      ensures engine.store.candidates == old(engine.store.candidates)
      ensures healthy ==>
                && events == old(events) && engine.routeTable == old(engine.routeTable)
                && engine.store.State() == old(engine.store.State())
                && engine.registry.activeGraph == old(engine.registry.activeGraph)
      ensures !healthy ==>
                var before := old(engine.store.State());
                && engine.store.State() == RolledBack(before)
                && (CanRollBack(before) ==>
                      && engine.registry.activeGraph == Some(RollbackSnapshot(before))
                      && engine.routeTable == Compiled(RollbackSnapshot(before).edges))
                && (!CanRollBack(before) ==>
                      && engine.registry.activeGraph == old(engine.registry.activeGraph)
                      && engine.routeTable == old(engine.routeTable))
                && events == old(events) + [RollbackEvent(
                     if before.active.Some? then before.active.value else 0,
                     if CanRollBack(before) then Some(RollbackSnapshot(before).graphVersion) else None)]
    {
      for k := 0 to |probes|
        invariant forall j :: 0 <= j < k ==> probes[j]
        invariant events == old(events) && engine.routeTable == old(engine.routeTable)
        invariant engine.store.State() == old(engine.store.State())
        invariant engine.store.candidates == old(engine.store.candidates)
        invariant engine.registry.activeGraph == old(engine.registry.activeGraph)
      {
        if probes[k] {
          continue;
        }
        var from := if engine.store.active.Some? then engine.store.active.value else 0;
        var snapshot := engine.Rollback();
        events := events + [RollbackEvent(from, if snapshot.Some? then Some(snapshot.value.graphVersion) else None)];
        return false;
      }
      healthy := true;
    }
  }
}
