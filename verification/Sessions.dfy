/** Series of promotions as the runtime makes them: how each ends, and what holds after all of them. */
module Sessions {
  import opened Ids
  import opened Models
  import opened GraphShape
  import opened GraphVersions
  import opened VersionRuns
  import opened EventBus
  import opened Routing
  import opened Drain
  import opened DrainRuns
  import opened SafetyPipeline
  import opened GraphRuns

  datatype CommitOutcome =
    | CommittedVersion(version: int)
    | CommittedUnheard(version: int)  // committed, then publishing the event that says so raised
    | Rejected(deferred: bool)        // the candidate did not pass
    | RejectedMidway(deferred: bool)  // it did not pass, and a phase change of the refusal raised
    | RejectedUnheard(deferred: bool) // it did not pass, and publishing the event that says so raised
    | Unannounced                     // publishing the event before the commit raised
    | NotCutOver(begin: BeginOutcome) // the drain could not be opened
    | ReplayRaised                    // cut over, then a replayed emission raised
    | EventsRaised                    // cut over, then a subscriber raised on a replayed event
    | PhaseRefused                    // cut over, then a phase change was illegal
    | Unhealthy                       // cut over, then rolled back by the health check
    | NoSuchCandidate                 // nothing deferred under that id

  predicate TurnedDown(outcome: CommitOutcome) {
    outcome.Rejected? || outcome.RejectedMidway? || outcome.RejectedUnheard?
  }

  /** Nothing failed before the event after the commit. */
  predicate GoneThrough(outcome: CommitOutcome) {
    outcome.CommittedVersion? || outcome.CommittedUnheard?
  }

  predicate CutsOver(outcome: CommitOutcome) {
    || GoneThrough(outcome) || outcome.ReplayRaised? || outcome.EventsRaised?
    || outcome.PhaseRefused? || outcome.Unhealthy?
  }

  /** How a refusal ends: its phase changes may raise, and so may its event. */
  function RefusalEnd(deferred: bool, settled: bool, heard: bool): CommitOutcome {
    if !settled then RejectedMidway(deferred) else if !heard then RejectedUnheard(deferred) else Rejected(deferred)
  }

  /** How a promotion ends, by what it meets in turn: the drain, the replay, the phases, the probes. */
  function PromotionEnd(begin: BeginOutcome, closing: Closing, settled: bool, probes: seq<bool>, version: int)
    : CommitOutcome
  {
    if begin != Begun then NotCutOver(begin)
    else if closing == RoutesRaised then CommitOutcome.ReplayRaised
    else if closing == EventsUnheard then CommitOutcome.EventsRaised
    else if !settled then PhaseRefused
    else if false in probes then Unhealthy
    else CommittedVersion(version)
  }

  /** The event after a commit may raise in turn. */
  function AfterEvent(outcome: CommitOutcome, heard: bool): CommitOutcome {
    if outcome.CommittedVersion? && !heard then CommittedUnheard(outcome.version) else outcome
  }

  // ------------------------------------------------------------ single steps

  ghost predicate GatesAllow(p: Promotion, reviewer: Option<GateDecision>, gates: seq<Gate>) {
    reviewer in {None, Some(Allow)} && forall gate :: gate in gates ==> GateAllows(gate, p)
  }

  function OpOf(outcome: CommitOutcome, p: Promotion): GraphOp {
    if CutsOver(outcome) then Promote(p.candidate, p.authorized, !outcome.Unhealthy?) else LeaveGraph
  }

  /** With the sandbox among the gates, every step a promotion takes is one the run theorems speak of. */
  lemma PromotionsAreAdmitted(
    s: GraphState, p: Promotion, outcome: CommitOutcome, reviewer: Option<GateDecision>, gates: seq<Gate>)
    requires SandboxGate in gates && p.active == s.active
    requires CutsOver(outcome) ==> GatesAllow(p, reviewer, gates)
    ensures Admitted(p.cat, s, [OpOf(outcome, p)])
    ensures p.authorized == {} ==> Unapproved([OpOf(outcome, p)])
  {
    var op := OpOf(outcome, p);
    assert [op][1..] == [];
    if CutsOver(outcome) {
      assert GateAllows(SandboxGate, p);
    }
  }

  /** Whether an epoch or a drain is left over after a call that ended like this. */
  function StuckAfter(stuck: bool, outcome: CommitOutcome): bool {
    stuck || outcome.NotCutOver? || outcome.ReplayRaised?
  }

  // -------------------------------------------------------------- whole runs

  /** One call of `commit_graph` or of a late review: what it judged and how it ended. */
  datatype Attempt = Attempt(
    promotion: Promotion, outcome: CommitOutcome, reviewer: Option<GateDecision>, gates: seq<Gate>)

  /**
   * Each call starts from the graph and the drains the one before left, promotes only what reviewer
   * and gates allow, and cuts over only when no drain is left over.
   */
  ghost predicate Session(cat: Catalogue, s: GraphState, stuck: bool, attempts: seq<Attempt>)
    decreases |attempts|
  {
    attempts == [] ||
    (var a := attempts[0];
     && a.promotion.cat == cat && a.promotion.active == s.active && SandboxGate in a.gates
     && (CutsOver(a.outcome) ==> GatesAllow(a.promotion, a.reviewer, a.gates) && !stuck)
     && Session(cat, GraphStep(s, OpOf(a.outcome, a.promotion)), StuckAfter(stuck, a.outcome), attempts[1..]))
  }

  function OpsOf(attempts: seq<Attempt>): seq<GraphOp> {
    if attempts == [] then []
    else [OpOf(attempts[0].outcome, attempts[0].promotion)] + OpsOf(attempts[1..])
  }

  lemma {:induction false} SessionAdmitted(cat: Catalogue, s: GraphState, stuck: bool, attempts: seq<Attempt>)
    requires Session(cat, s, stuck, attempts)
    ensures Admitted(cat, s, OpsOf(attempts))
    ensures (forall a :: a in attempts ==> a.promotion.authorized == {}) ==> Unapproved(OpsOf(attempts))
    decreases |attempts|
  {
    if attempts == [] {
    } else {
      var a := attempts[0];
      var op, rest := OpOf(a.outcome, a.promotion), OpsOf(attempts[1..]);
      PromotionsAreAdmitted(s, a.promotion, a.outcome, a.reviewer, a.gates);
      SessionAdmitted(cat, GraphStep(s, op), StuckAfter(stuck, a.outcome), attempts[1..]);
      assert ([op] + rest)[1..] == rest;
      assert a in attempts && forall b :: b in attempts[1..] ==> b in attempts;
    }
  }

  /** The first graph has nothing to be rolled back to: an unhealthy one stays active. */
  lemma FirstGraphStays(s: GraphState, g: GraphSnapshot)
    requires Initial(s)
    ensures Reverted(CutOver(s, g)) == CutOver(s, g) && CutOver(s, g).active == Some(g)
  {
    RetiredKeeps(Promoted(s.store, g));
  }

  /**
   * From the empty runtime, through any series of accepted, refused, deferred, reviewed and unhealthy
   * candidates: the active graph has its shape, and without approvals the connections around a
   * manifest-protected component are those of the first graph cut over to.
   */
  lemma SessionsKeepShapeAndBoundary(
    cat: Catalogue, s: GraphState, stuck: bool, first: Attempt, attempts: seq<Attempt>, c: Id)
    requires Initial(s) && Session(cat, s, stuck, [first] + attempts)
    requires CutsOver(first.outcome)
    ensures var t := GraphRun(s, OpsOf([first] + attempts));
            && t.active.Some? && Structural(cat, t.active.value)
            && (cat.IsProtected(c) && (forall a :: a in [first] + attempts ==> a.promotion.authorized == {}) ==>
                  IncidentWires(t.active.value.edges, c) == IncidentWires(first.promotion.candidate.edges, c))
  {
    var all, g := [first] + attempts, first.promotion.candidate;
    var op, rest := OpOf(first.outcome, first.promotion), OpsOf(attempts);
    assert all[1..] == attempts && ([op] + rest)[1..] == rest;
    SessionAdmitted(cat, s, stuck, all);
    FreshIsConsistent(s.store);
    OnlyGraphsInShape(cat, s, OpsOf(all));
    FirstGraphStays(s, g);
    ActiveStays(GraphStep(s, op), rest);
    if cat.IsProtected(c) && forall a :: a in all ==> a.promotion.authorized == {} {
      assert first in all && forall a :: a in attempts ==> a in all;
      SessionAdmitted(cat, CutOver(s, g), StuckAfter(stuck, first.outcome), attempts);
      BoundaryFixedByFirstCommit(cat, s, g, rest, c);
    }
  }

  /** The same when other candidates were refused or failed before the first one that is cut over to. */
  lemma {:induction false} FirstCutoverFixesBoundary(
    cat: Catalogue, s: GraphState, stuck: bool, attempts: seq<Attempt>, i: nat, c: Id)
    requires Initial(s) && Session(cat, s, stuck, attempts)
    requires i < |attempts| && CutsOver(attempts[i].outcome)
    requires forall j :: 0 <= j < i ==> !CutsOver(attempts[j].outcome)
    ensures var t := GraphRun(s, OpsOf(attempts));
            && t.active.Some?
            && (cat.IsProtected(c) && (forall a :: a in attempts ==> a.promotion.authorized == {}) ==>
                  IncidentWires(t.active.value.edges, c) == IncidentWires(attempts[i].promotion.candidate.edges, c))
    decreases i
  {
    if i == 0 {
      assert [attempts[0]] + attempts[1..] == attempts;
      SessionsKeepShapeAndBoundary(cat, s, stuck, attempts[0], attempts[1..], c);
    } else {
      var rest := AfterNoCutover(cat, s, stuck, attempts);
      assert forall j :: 0 <= j < i - 1 ==> rest[j] == attempts[j + 1];
      FirstCutoverFixesBoundary(cat, s, StuckAfter(stuck, attempts[0].outcome), rest, i - 1, c);
    }
  }

  /** A call that cuts nothing over leaves the graph to the rest of the session. */
  lemma AfterNoCutover(cat: Catalogue, s: GraphState, stuck: bool, attempts: seq<Attempt>) returns (rest: seq<Attempt>)
    requires Session(cat, s, stuck, attempts) && attempts != [] && !CutsOver(attempts[0].outcome)
    ensures rest == attempts[1..] && Session(cat, s, StuckAfter(stuck, attempts[0].outcome), rest)
    ensures GraphRun(s, OpsOf(attempts)) == GraphRun(s, OpsOf(rest))
    ensures forall a :: a in rest ==> a in attempts
  {
    rest := attempts[1..];
    assert ([LeaveGraph] + OpsOf(rest))[1..] == OpsOf(rest);
  }

  /** Once some graph is active, one always is. */
  lemma {:induction false} ActiveStays(s: GraphState, ops: seq<GraphOp>)
    requires s.active.Some?
    ensures GraphRun(s, ops).active.Some?
    decreases |ops|
  {
    if ops == [] {
    } else {
      ActiveStays(GraphStep(s, ops[0]), ops[1..]);
    }
  }

  /** While a drain is left over the graph never changes, whatever is committed or reviewed. */
  lemma {:induction false} StuckStandsStill(cat: Catalogue, s: GraphState, attempts: seq<Attempt>)
    requires Session(cat, s, true, attempts)
    ensures GraphRun(s, OpsOf(attempts)) == s
    ensures forall a :: a in attempts ==> !CutsOver(a.outcome)
    decreases |attempts|
  {
    if attempts == [] {
    } else {
      var op, rest := OpOf(attempts[0].outcome, attempts[0].promotion), OpsOf(attempts[1..]);
      assert ([op] + rest)[1..] == rest;
      StuckStandsStill(cat, s, attempts[1..]);
      assert forall a :: a in attempts ==> a == attempts[0] || a in attempts[1..];
    }
  }

  /** After a drain that did not open or a replayed emission that raised, no later call ever cuts over. */
  lemma {:induction false} BrokenDrainIsFinal(
    cat: Catalogue, s: GraphState, stuck: bool, attempts: seq<Attempt>, i: nat, j: nat)
    requires Session(cat, s, stuck, attempts) && i < j < |attempts|
    requires attempts[i].outcome.NotCutOver? || attempts[i].outcome.ReplayRaised?
    ensures !CutsOver(attempts[j].outcome)
    decreases i
  {
    var a, rest := attempts[0], attempts[1..];
    var t := GraphStep(s, OpOf(a.outcome, a.promotion));
    assert rest[j - 1] == attempts[j];
    if i == 0 {
      StuckStandsStill(cat, t, rest);
    } else {
      assert rest[i - 1] == attempts[i];
      BrokenDrainIsFinal(cat, t, StuckAfter(stuck, a.outcome), rest, i - 1, j - 1);
    }
  }
}
