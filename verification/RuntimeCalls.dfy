/** The calls of the runtime are the turns its runs are made of. */
module RuntimeCalls {
  import opened Models
  import opened GraphVersions
  import opened SafetyPipeline
  import opened Sessions
  import opened Judgement
  import opened RuntimeSteps
  import opened RuntimeRuns
  import opened Boot

  /** With the sandbox among the gates, a `commit_graph` call is a turn, and leaves the state the turn names. */
  method CommitTurn(
    runtime: HarnessRuntime, pending: PendingConnectionSet, candidateId: string, actor: Option<string>,
    approvalId: Option<string>, w: Surroundings)
    returns (outcome: CommitOutcome, ghost turn: Turn)
    requires runtime.Wired() && Quiet(w) && SandboxGate in w.gates
    modifies runtime.engine, runtime.bus, runtime.store, runtime.registry, runtime.lifecycle, runtime.autoRollback
    modifies runtime.coordinator`currentEpoch, runtime.coordinator`hooks, runtime.coordinator`reports
    ensures turn.call.CommitCall? && turn.outcome == outcome && turn.after == runtime.State()
    ensures RuntimeRun(old(runtime.registry.catalogue), old(runtime.State()), [turn], runtime.Setting())
  {
    ghost var ready := runtime.Ready(GraphSnapshot(0, pending.nodes, pending.edges), w.unready);
    ghost var p, judged;
    outcome, p, judged := runtime.CommitGraph(pending, candidateId, actor, approvalId, w);
    ghost var approved := runtime.Approved(approvalId, actor);
    turn := Turn(CommitCall(candidateId, p, judged, ready, approved, w), outcome, runtime.State());
    OneTurn(old(runtime.registry.catalogue), old(runtime.State()), turn, runtime.Setting());
  }

  /** And so is a late review, unless nothing is deferred under that id, which changes nothing. */
  method ReviewTurn(runtime: HarnessRuntime, candidateId: string, w: Surroundings)
    returns (outcome: CommitOutcome, ghost turn: Option<Turn>)
    requires runtime.Wired() && Quiet(w) && SandboxGate in w.gates
    modifies runtime.engine, runtime.bus, runtime.store, runtime.lifecycle, runtime.autoRollback
    modifies runtime.registry`activeGraph, runtime.registry`graphVersions
    modifies runtime.coordinator`currentEpoch, runtime.coordinator`hooks, runtime.coordinator`reports
    ensures turn.None? <==> outcome == NoSuchCandidate
    ensures turn.None? ==> runtime.State() == old(runtime.State())
    ensures turn.Some? ==>
              && turn.value.call.ReviewCall? && turn.value.outcome == outcome && turn.value.after == runtime.State()
              && RuntimeRun(runtime.registry.catalogue, old(runtime.State()), [turn.value], runtime.Setting())
  {
    ghost var p, k;
    outcome, p, k := runtime.ReviewDeferredCandidate(candidateId, w);
    if outcome == NoSuchCandidate {
      turn := None;
    } else {
      turn := Some(Turn(ReviewCall(k, w), outcome, runtime.State()));
      OneTurn(runtime.registry.catalogue, old(runtime.State()), turn.value, runtime.Setting());
    }
  }
}
