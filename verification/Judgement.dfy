/** How a candidate is judged: its report, what blocks it, and the records kept of it. */
module Judgement {
  import opened Ids
  import opened Digraph
  import opened Models
  import opened GraphShape
  import opened Validators
  import opened GraphVersions
  import opened SafetyPipeline
  import opened Sessions

  // ----------------------------------------------------------------- reports

  predicate Blocks(issues: seq<ValidationIssue>) {
    exists i :: i in issues && i.blocksPromotion
  }

  function ProtectedSubjects(issues: seq<ValidationIssue>): set<string> {
    set i | i in issues && i.category == ProtectedComponent :: i.subject
  }

  function AuthorizationIssues(subjects: seq<string>): seq<ValidationIssue> {
    seq(|subjects|, k requires 0 <= k < |subjects| => Protecting(ProtectedAuthorizationRequired, subjects[k]))
  }

  function Unprotected(issues: seq<ValidationIssue>): (r: seq<ValidationIssue>)
    ensures forall i :: i in r <==> i in issues && i.category != ProtectedComponent
  {
    if issues == [] then []
    else
      var last := issues[|issues| - 1];
      assert issues == issues[..|issues| - 1] + [last];
      Unprotected(issues[..|issues| - 1]) + (if last.category == ProtectedComponent then [] else [last])
  }

  /** The report a promotion is judged by: approval drops protection issues, lack of it adds to them. */
  ghost function Judged(report: ValidationReport, approved: bool): ValidationReport {
    if approved then ValidationReport(Unprotected(report.issues) == [], Unprotected(report.issues))
    else if ProtectedSubjects(report.issues) == {} then report
    else ValidationReport(false, report.issues + AuthorizationIssues(Sorted(ProtectedSubjects(report.issues))))
  }

  predicate ReadyIssue(i: ValidationIssue) {
    i.category == Readiness && i.blocksPromotion
  }

  /** What keeps a graph from being ready: targets without a handler, and nodes whose health check fails. */
  predicate ReadinessDue(g: GraphSnapshot, missing: set<string>, unready: set<Id>, i: ValidationIssue) {
    || (i.subject in missing && i == ValidationIssue(MissingRouteHandler, i.subject, Readiness, true))
    || (i.subject in NodeIds(g.nodes) * unready && i == ValidationIssue(ComponentNotReady, i.subject, Readiness, true))
  }

  lemma ReadyExactly(g: GraphSnapshot, missing: set<string>, unready: set<Id>, issues: seq<ValidationIssue>)
    requires forall i :: i in issues <==> ReadinessDue(g, missing, unready, i)
    ensures issues == [] <==> missing == {} && NodeIds(g.nodes) !! unready
  {
    FirstIsMember(issues);
    if subject :| subject in missing {
      assert ValidationIssue(MissingRouteHandler, subject, Readiness, true) in issues;
    }
    assert forall subject :: subject in NodeIds(g.nodes) && subject in unready
                        <==> subject in NodeIds(g.nodes) * unready;
    if subject :| subject in NodeIds(g.nodes) * unready {
      assert ValidationIssue(ComponentNotReady, subject, Readiness, true) in issues;
    }
  }

  /** What the report a candidate is judged by lists, the cycle aside. */
  ghost predicate Listed(
    cat: Catalogue, active: Option<GraphSnapshot>, g: GraphSnapshot, missing: set<string>, unready: set<Id>,
    approved: bool, i: ValidationIssue)
  {
    || (Due(cat, active, g, i) && (approved ==> i.category != ProtectedComponent))
    || ReadinessDue(g, missing, unready, i)
    || (!approved && Affected(cat, active, g, i.subject) && i == Protecting(ProtectedAuthorizationRequired, i.subject))
  }

  ghost predicate JudgedReport(
    report: ValidationReport, cat: Catalogue, active: Option<GraphSnapshot>, g: GraphSnapshot, missing: set<string>,
    unready: set<Id>, approved: bool)
  {
    && (report.valid <==> report.issues == [])
    && (forall i :: i in report.issues && i.code != CycleDetected
                <==> Listed(cat, active, g, missing, unready, approved, i))
    && (forall i :: i in report.issues && i.code == CycleDetected ==> CycleIssue(i))
    && ((exists i :: i in report.issues && CycleIssue(i)) <==> !Acyclic(Adjacency(NodeIds(g.nodes), g.edges)))
  }

  /** No flaw of the candidate blocks its promotion by itself. */
  ghost predicate NothingBlocks(cat: Catalogue, active: Option<GraphSnapshot>, g: GraphSnapshot, approved: bool) {
    && Acyclic(Adjacency(NodeIds(g.nodes), g.edges))
    && forall i :: Due(cat, active, g, i) && i.blocksPromotion ==> approved && i.category == ProtectedComponent
  }

  lemma ProtectionBlocks(cat: Catalogue, active: Option<GraphSnapshot>, g: GraphSnapshot, i: ValidationIssue)
    requires Due(cat, active, g, i) && i.category == ProtectedComponent
    ensures i.blocksPromotion
  {
  }

  lemma JudgedBlocks(
    cat: Catalogue, active: Option<GraphSnapshot>, g: GraphSnapshot,
    staged: ValidationReport, readiness: seq<ValidationIssue>, report: ValidationReport, approved: bool)
    requires ExactReport(cat, active, g, staged)
    requires forall i :: i in readiness ==> ReadyIssue(i)
    requires report == if readiness == [] then staged else ValidationReport(false, staged.issues + readiness)
    ensures Blocks(Judged(report, approved).issues) <==> readiness != [] || !NothingBlocks(cat, active, g, approved)
  {
    var judged := Judged(report, approved);
    DueIsNotCycle(cat, active, g);
    assert forall i :: i in report.issues <==> i in staged.issues || i in readiness;
    assert readiness != [] ==> readiness[0] in readiness && readiness[0] in judged.issues;
    if readiness == [] && NothingBlocks(cat, active, g, approved) {
      forall j | j in staged.issues ensures j.blocksPromotion ==> approved && j.category == ProtectedComponent {
        assert j.code == CycleDetected ==> CycleIssue(j);
      }
      if !approved {
        forall j | j in staged.issues ensures j.category != ProtectedComponent {
          assert j.code == CycleDetected ==> CycleIssue(j);
          if j.category == ProtectedComponent { ProtectionBlocks(cat, active, g, j); }
        }
        assert ProtectedSubjects(report.issues) == {};
      }
    }
    if !NothingBlocks(cat, active, g, approved) {
      if Acyclic(Adjacency(NodeIds(g.nodes), g.edges)) {
        var i :| Due(cat, active, g, i) && i.blocksPromotion && !(approved && i.category == ProtectedComponent);
        assert i in staged.issues && i in judged.issues;
      } else {
        var i :| i in staged.issues && CycleIssue(i);
        assert i in judged.issues;
      }
    }
  }

  lemma FirstIsMember(issues: seq<ValidationIssue>)
    ensures issues != [] ==> issues[0] in issues
  {
  }

  /**
   * A candidate the sandbox passes and no blocking issue stops has a valid
   * report: the report never has to be declared valid by force.
   */
  lemma ForcedValidNeverNeeded(
    cat: Catalogue, active: Option<GraphSnapshot>, g: GraphSnapshot,
    staged: ValidationReport, readiness: seq<ValidationIssue>, report: ValidationReport, approved: bool)
    requires ExactReport(cat, active, g, staged)
    requires forall i :: i in readiness ==> ReadyIssue(i)
    requires report == if readiness == [] then staged else ValidationReport(false, staged.issues + readiness)
    requires !Blocks(Judged(report, approved).issues)
    requires Passes(cat, active, g, if approved then ProtectedSubjects(report.issues) else {})
    ensures Judged(report, approved).valid
  {
    JudgedBlocks(cat, active, g, staged, readiness, report, approved);
    DueIsNotCycle(cat, active, g);
    var unprotected := Unprotected(report.issues);
    FirstIsMember(unprotected);
    FirstIsMember(staged.issues);
    forall i | i in staged.issues ensures approved && i.category == ProtectedComponent {
      assert i.code == CycleDetected ==> CycleIssue(i);
      assert Due(cat, active, g, i);
    }
  }

  // --------------------------------------------------------------- admission

  /** Exactly what `commit_graph` promotes. */
  ghost predicate Admissible(
    p: Promotion, ready: bool, approved: bool, reviewer: Option<GateDecision>, gates: seq<Gate>)
  {
    Unblocked(p, ready, approved) && GatesAllow(p, reviewer, gates)
  }

  /** Exactly what it keeps for a later review. */
  ghost predicate Deferrable(
    p: Promotion, ready: bool, approved: bool, reviewer: Option<GateDecision>, gates: seq<Gate>)
  {
    Unblocked(p, ready, approved) && DefersFirst(p, reviewer, gates)
  }

  /** No issue of the report it is judged by blocks the promotion. */
  ghost predicate Unblocked(p: Promotion, ready: bool, approved: bool) {
    ready && NothingBlocks(p.cat, p.active, p.candidate, approved)
  }

  // --------------------------------------------------------------- approvals

  /** The approval is one that was given to this actor. */
  predicate Granted(approvals: map<string, string>, approvalId: Option<string>, actor: Option<string>) {
    && approvalId.Some? && actor.Some? && approvalId.value in approvals
    && approvals[approvalId.value] == actor.value
  }

  /** An approval would cover this subject of the candidate: something protected that it changes. */
  ghost predicate Affected(cat: Catalogue, active: Option<GraphSnapshot>, g: GraphSnapshot, subject: string) {
    exists i :: Due(cat, active, g, i) && i.category == ProtectedComponent && i.subject == subject
  }

  /** Exactly what the candidate affects is authorized, and nothing without approval. */
  ghost predicate AuthorizedFor(
    authorized: set<string>, cat: Catalogue, active: Option<GraphSnapshot>, g: GraphSnapshot, approved: bool)
  {
    forall subject :: subject in authorized <==> approved && Affected(cat, active, g, subject)
  }

  /** Those are the components, protected in either graph, that are removed or rewired, and the contested slots. */
  lemma AffectedExactly(cat: Catalogue, active: Option<GraphSnapshot>, g: GraphSnapshot, subject: string)
    ensures Affected(cat, active, g, subject) <==>
              || (&& active.Some? && subject in NodeIds(active.value.nodes) + NodeIds(g.nodes)
                  && !BoundaryKept(cat, active.value, g, subject))
              || (exists c, s :: SlotContested(cat, g, c, s) && s.slot == subject)
  {
    if active.Some? && subject in NodeIds(active.value.nodes) + NodeIds(g.nodes)
       && !BoundaryKept(cat, active.value, g, subject) {
      BoundaryAffects(cat, active.value, g, subject);
    }
    if c, s :| SlotContested(cat, g, c, s) && s.slot == subject {
      var i := Protecting(ProtectedSlotOverride, subject);
      assert ComponentDue(cat, g, c, i);
      assert Due(cat, active, g, i);
    }
  }

  lemma BoundaryAffects(cat: Catalogue, active: GraphSnapshot, g: GraphSnapshot, c: Id)
    requires c in NodeIds(active.nodes) + NodeIds(g.nodes) && !BoundaryKept(cat, active, g, c)
    ensures Affected(cat, Some(active), g, c)
  {
    var i := Protecting(if c in NodeIds(active.nodes) && c !in NodeIds(g.nodes) then ProtectedComponentRemoved
                        else ProtectedBoundaryViolation, c);
    assert BoundaryDue(cat, active, g, c, i);
    assert BoundaryIssue(cat, Some(active), g, i);
    assert Due(cat, Some(active), g, i);
  }

  lemma ReportAffected(
    cat: Catalogue, active: Option<GraphSnapshot>, g: GraphSnapshot,
    staged: ValidationReport, readiness: seq<ValidationIssue>, issues: seq<ValidationIssue>)
    requires ExactReport(cat, active, g, staged) && forall i :: i in readiness ==> ReadyIssue(i)
    requires issues == if readiness == [] then staged.issues else staged.issues + readiness
    ensures forall subject :: subject in ProtectedSubjects(issues) <==> Affected(cat, active, g, subject)
  {
    DueIsNotCycle(cat, active, g);
    forall i | i in issues && i.category == ProtectedComponent ensures Due(cat, active, g, i) {
      assert i.code == CycleDetected ==> CycleIssue(i);
    }
    forall i | Due(cat, active, g, i) ensures i in issues {
      assert i in staged.issues;
    }
  }

  /** So the report lists exactly what is due: approval drops protection issues, lack of it adds to them. */
  lemma JudgedExactly(
    cat: Catalogue, active: Option<GraphSnapshot>, g: GraphSnapshot, staged: ValidationReport,
    readiness: seq<ValidationIssue>, report: ValidationReport, missing: set<string>, unready: set<Id>, approved: bool)
    requires ExactReport(cat, active, g, staged)
    requires forall i :: i in readiness <==> ReadinessDue(g, missing, unready, i)
    requires report == if readiness == [] then staged else ValidationReport(false, staged.issues + readiness)
    ensures JudgedReport(Judged(report, approved), cat, active, g, missing, unready, approved)
  {
    ReportAffected(cat, active, g, staged, readiness, report.issues);
    forall i
      ensures i in Judged(report, approved).issues && i.code != CycleDetected
         <==> Listed(cat, active, g, missing, unready, approved, i)
      ensures i in Judged(report, approved).issues && i.code == CycleDetected
         <==> i in staged.issues && i.code == CycleDetected
    {
      IssueListed(cat, active, g, staged, readiness, report, missing, unready, approved, i);
    }
    JudgedValid(staged, readiness, report, approved);
    SameCycles(Judged(report, approved).issues, staged.issues);
  }

  lemma JudgedValid(
    staged: ValidationReport, readiness: seq<ValidationIssue>, report: ValidationReport, approved: bool)
    requires staged.valid <==> staged.issues == []
    requires report == if readiness == [] then staged else ValidationReport(false, staged.issues + readiness)
    ensures Judged(report, approved).valid <==> Judged(report, approved).issues == []
  {
    JudgedHolds(report, approved);
  }

  lemma SameCycles(a: seq<ValidationIssue>, b: seq<ValidationIssue>)
    requires forall i :: i in a && i.code == CycleDetected <==> i in b && i.code == CycleDetected
    ensures (exists i :: i in a && CycleIssue(i)) <==> exists i :: i in b && CycleIssue(i)
  {
    if i :| i in a && CycleIssue(i) {
      assert i in b;
    }
    if i :| i in b && CycleIssue(i) {
      assert i in a;
    }
  }

  lemma IssueListed(
    cat: Catalogue, active: Option<GraphSnapshot>, g: GraphSnapshot, staged: ValidationReport,
    readiness: seq<ValidationIssue>, report: ValidationReport, missing: set<string>, unready: set<Id>, approved: bool,
    i: ValidationIssue)
    requires i in staged.issues && i.code != CycleDetected <==> Due(cat, active, g, i)
    requires i in staged.issues && i.code == CycleDetected ==> CycleIssue(i)
    requires i in readiness <==> ReadinessDue(g, missing, unready, i)
    requires report.issues == if readiness == [] then staged.issues else staged.issues + readiness
    requires i.subject in ProtectedSubjects(report.issues) <==> Affected(cat, active, g, i.subject)
    ensures i in Judged(report, approved).issues && i.code != CycleDetected
       <==> Listed(cat, active, g, missing, unready, approved, i)
    ensures i in Judged(report, approved).issues && i.code == CycleDetected
       <==> i in staged.issues && i.code == CycleDetected
  {
    JudgedHolds(report, approved);
  }

  /** Which issues the judged report holds, and when it is valid. */
  lemma JudgedHolds(report: ValidationReport, approved: bool)
    ensures var judged := Judged(report, approved);
            && ((report.valid <==> report.issues == []) ==> (judged.valid <==> judged.issues == []))
            && forall i :: i in judged.issues <==>
                 || (i in report.issues && (approved ==> i.category != ProtectedComponent))
                 || (&& !approved && i.subject in ProtectedSubjects(report.issues)
                     && i == Protecting(ProtectedAuthorizationRequired, i.subject))
  {
    var subjects := Sorted(ProtectedSubjects(report.issues));
    if !approved {
      forall i ensures i in AuthorizationIssues(subjects)
                  <==> i.subject in subjects && i == Protecting(ProtectedAuthorizationRequired, i.subject)
      {
        if i.subject in subjects && i == Protecting(ProtectedAuthorizationRequired, i.subject) {
          var k :| 0 <= k < |subjects| && subjects[k] == i.subject;
          assert AuthorizationIssues(subjects)[k] == i;
        }
      }
    }
  }

  /** All that holds of the report a candidate is judged by, and of what is authorized. */
  lemma PreparedReport(
    cat: Catalogue, active: Option<GraphSnapshot>, g: GraphSnapshot, staged: ValidationReport,
    readiness: seq<ValidationIssue>, combined: ValidationReport, missing: set<string>, unready: set<Id>,
    approved: bool)
    requires ExactReport(cat, active, g, staged)
    requires forall i :: i in readiness <==> ReadinessDue(g, missing, unready, i)
    requires combined == if readiness == [] then staged else ValidationReport(false, staged.issues + readiness)
    ensures var report := Judged(combined, approved);
            var authorized := if approved then ProtectedSubjects(combined.issues) else {};
            && AuthorizedFor(authorized, cat, active, g, approved)
            && JudgedReport(report, cat, active, g, missing, unready, approved)
            && (Blocks(report.issues) <==> !(readiness == [] && NothingBlocks(cat, active, g, approved)))
            && (!Blocks(report.issues) && Passes(cat, active, g, authorized) ==> report.valid)
            && LastingFlaws(cat, g, report.issues)
  {
    ReportAffected(cat, active, g, staged, readiness, combined.issues);
    JudgedExactly(cat, active, g, staged, readiness, combined, missing, unready, approved);
    JudgedBlocks(cat, active, g, staged, readiness, combined, approved);
    JudgedFlawsLast(cat, active, g, staged, readiness, combined, approved);
    var authorized := if approved then ProtectedSubjects(combined.issues) else {};
    if !Blocks(Judged(combined, approved).issues) && Passes(cat, active, g, authorized) {
      ForcedValidNeverNeeded(cat, active, g, staged, readiness, combined, approved);
    }
  }

  /** A graph in shape has no flaw but those an approval covers. */
  lemma ShapedFlaws(cat: Catalogue, active: Option<GraphSnapshot>, g: GraphSnapshot, i: ValidationIssue)
    requires Structural(cat, g) && Due(cat, active, g, i)
    ensures i.category == ProtectedComponent
  {
  }

  /**
   * Who passes the sandbox: with an approval every graph in shape, because the approval authorizes all it
   * affects, and without one the well-formed graphs.
   */
  lemma ApprovalWaivesExactly(p: Promotion, approved: bool)
    requires AuthorizedFor(p.authorized, p.cat, p.active, p.candidate, approved)
    ensures Passes(p.cat, p.active, p.candidate, p.authorized)
       <==> if approved then Structural(p.cat, p.candidate) else WellFormed(p.cat, p.active, p.candidate)
  {
    if approved {
      if Passes(p.cat, p.active, p.candidate, p.authorized) {
        PassesIsStructural(p.cat, p.active, p.candidate, p.authorized);
      }
      if Structural(p.cat, p.candidate) {
        forall i | Due(p.cat, p.active, p.candidate, i) ensures Waived(i, p.authorized) {
          ShapedFlaws(p.cat, p.active, p.candidate, i);
        }
      }
    } else {
      assert p.authorized == {};
      PassesUnauthorized(p.cat, p.active, p.candidate);
    }
  }

  /**
   * What is promoted with the sandbox among the gates, exactly: a ready candidate that the reviewer and
   * the other gates allow and that is in shape and, unless it is approved, leaves everything protected
   * alone.
   */
  lemma AdmittedExactly(
    p: Promotion, ready: bool, approved: bool, reviewer: Option<GateDecision>, gates: seq<Gate>)
    requires AuthorizedFor(p.authorized, p.cat, p.active, p.candidate, approved) && SandboxGate in gates
    ensures Admissible(p, ready, approved, reviewer, gates) <==>
              && ready && reviewer in {None, Some(Allow)}
              && (forall gate :: gate in gates && gate.OtherGate? ==> gate.decision in {None, Some(Allow)})
              && Structural(p.cat, p.candidate) && (approved || WellFormed(p.cat, p.active, p.candidate))
  {
    ApprovalWaivesExactly(p, approved);
    SandboxAmong(p, gates);
    if Structural(p.cat, p.candidate) && (approved || WellFormed(p.cat, p.active, p.candidate)) {
      forall i | Due(p.cat, p.active, p.candidate, i) ensures approved && i.category == ProtectedComponent {
        ShapedFlaws(p.cat, p.active, p.candidate, i);
        if !approved { WellFormedNoIssue(p.cat, p.active, p.candidate, i); }
      }
    }
  }

  lemma SandboxAmong(p: Promotion, gates: seq<Gate>)
    requires SandboxGate in gates
    ensures (forall gate :: gate in gates ==> GateAllows(gate, p)) <==>
              && Passes(p.cat, p.active, p.candidate, p.authorized)
              && forall gate :: gate in gates && gate.OtherGate? ==> gate.decision in {None, Some(Allow)}
  {
    if forall gate :: gate in gates ==> GateAllows(gate, p) {
      assert GateAllows(SandboxGate, p);
      forall gate | gate in gates && gate.OtherGate? ensures gate.decision in {None, Some(Allow)} {
        assert GateAllows(gate, p);
      }
    }
  }

  // ----------------------------------------------------------------- records

  /** What a deferred record says was found: flaws that do not block and that no other active graph would remove. */
  ghost predicate Honest(cat: Catalogue, c: CandidateRecord) {
    c.deferred ==>
      && (c.report.valid <==> c.report.issues == []) && !Blocks(c.report.issues)
      && LastingFlaws(cat, c.snapshot, c.report.issues)
  }

  ghost predicate LastingFlaws(cat: Catalogue, g: GraphSnapshot, issues: seq<ValidationIssue>) {
    forall i :: i in issues && !i.blocksPromotion ==> Due(cat, None, g, i)
  }

  ghost predicate AllHonest(cat: Catalogue, candidates: seq<CandidateRecord>) {
    forall c :: c in candidates ==> Honest(cat, c)
  }

  /** The flaws that do not block are flaws of the graph alone. */
  lemma UnblockingFlawsLast(cat: Catalogue, active: Option<GraphSnapshot>, g: GraphSnapshot, i: ValidationIssue)
    requires !i.blocksPromotion
    ensures Due(cat, active, g, i) <==> Due(cat, None, g, i)
  {
  }

  lemma UnblockingStaged(
    staged: ValidationReport, readiness: seq<ValidationIssue>, report: ValidationReport, approved: bool,
    i: ValidationIssue)
    requires forall r :: r in readiness ==> ReadyIssue(r)
    requires report.issues == if readiness == [] then staged.issues else staged.issues + readiness
    requires i in Judged(report, approved).issues && !i.blocksPromotion
    ensures i in staged.issues
  {
  }

  lemma JudgedFlawsLast(
    cat: Catalogue, active: Option<GraphSnapshot>, g: GraphSnapshot,
    staged: ValidationReport, readiness: seq<ValidationIssue>, report: ValidationReport, approved: bool)
    requires ExactReport(cat, active, g, staged)
    requires forall i :: i in readiness ==> ReadyIssue(i)
    requires report == if readiness == [] then staged else ValidationReport(false, staged.issues + readiness)
    ensures LastingFlaws(cat, g, Judged(report, approved).issues)
  {
    forall i | i in Judged(report, approved).issues && !i.blocksPromotion ensures Due(cat, None, g, i) {
      UnblockingStaged(staged, readiness, report, approved, i);
      assert i.code == CycleDetected ==> CycleIssue(i);
      UnblockingFlawsLast(cat, active, g, i);
    }
  }

  /**
   * A deferred record that the sandbox passes when it is reviewed, whatever graph is active by then,
   * lists no issue and is valid already: its report never has to be declared valid by force.
   */
  lemma AdoptedWithoutForce(cat: Catalogue, active: Option<GraphSnapshot>, c: CandidateRecord)
    requires Honest(cat, c) && c.deferred && Passes(cat, active, c.snapshot, {})
    ensures c.report.valid && c.report.issues == []
  {
    NoLastingFlaw(cat, active, c.snapshot);
    FirstIsMember(c.report.issues);
  }

  lemma NoLastingFlaw(cat: Catalogue, active: Option<GraphSnapshot>, g: GraphSnapshot)
    requires Passes(cat, active, g, {})
    ensures forall i :: Due(cat, None, g, i) ==> i.blocksPromotion
  {
    forall i: ValidationIssue | !i.blocksPromotion ensures !Due(cat, None, g, i) {
      UnblockingFlawsLast(cat, active, g, i);
    }
  }

  function Adopted(c: CandidateRecord): CandidateRecord {
    c.(report := c.report.(valid := true), promoted := true, deferred := false)
  }

  lemma UpdatedHonest(cat: Catalogue, candidates: seq<CandidateRecord>, c: CandidateRecord)
    requires AllHonest(cat, candidates) && Honest(cat, c)
    ensures AllHonest(cat, Updated(candidates, c))
  {
    forall d | d in Updated(candidates, c) ensures Honest(cat, d) {
      assert d == c || d in candidates;
    }
  }
}
