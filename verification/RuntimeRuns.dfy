/** Whole runs of the runtime: series of `commit_graph` and `review_deferred_candidate` calls on its full state. */
module RuntimeRuns {
  import opened Ids
  import opened Models
  import opened GraphShape
  import opened GraphVersions
  import opened VersionRuns
  import opened SafetyPipeline
  import opened GraphRuns
  import opened Sessions
  import opened Judgement
  import opened RuntimeSteps

  /** One call with what it judged; a review names the record it picked. */
  datatype RuntimeCall =
    | CommitCall(candidateId: string, promotion: Promotion, judged: ValidationReport, ready: bool, approved: bool,
                 w: Surroundings)
    | ReviewCall(k: nat, w: Surroundings)

  /** What a call can be about in a state, with the sandbox among its gates. */
  ghost predicate Possible(cat: Catalogue, s: RuntimeState, call: RuntimeCall) {
    && Quiet(call.w) && SandboxGate in call.w.gates
    && match call
       case CommitCall(_, p, judged, ready, approved, w) =>
         p.cat == cat && p.active == s.active && FairReport(judged, p, ready, approved, w)
       case ReviewCall(k, _) =>
         k < |s.candidates| && IsLastDeferred(s.candidates, s.candidates[k].candidateId, k)
  }

  function PromotionOf(cat: Catalogue, s: RuntimeState, call: RuntimeCall): Promotion
    requires call.ReviewCall? ==> call.k < |s.candidates|
  {
    match call
    case CommitCall(_, p, _, _, _, _) => p
    case ReviewCall(k, _) => Promotion(cat, s.active, s.candidates[k].snapshot, {})
  }

  /** What `CommitGraph` and `ReviewDeferredCandidate` promise of a call. */
  ghost predicate CallStep(
    cat: Catalogue, s: RuntimeState, call: RuntimeCall, outcome: CommitOutcome, t: RuntimeState, setting: Setting)
    requires Possible(cat, s, call)
  {
    match call
    case CommitCall(id, p, judged, ready, approved, w) =>
      && outcome == CallEnd(s, id, p.candidate, Admissible(p, ready, approved, w.reviewer, w.gates),
                            Deferrable(p, ready, approved, w.reviewer, w.gates), setting, w)
      && CommitDone(s, t, outcome, id, p, judged, setting)
    case ReviewCall(k, w) =>
      && outcome == ReviewEnd(s, PromotionOf(cat, s, call), s.candidates[k], setting, w)
      && ReviewDone(s, t, outcome, PromotionOf(cat, s, call), s.candidates[k], setting)
  }

  /** A call, how it ended and the state it left. */
  datatype Turn = Turn(call: RuntimeCall, outcome: CommitOutcome, after: RuntimeState)

  ghost predicate RuntimeRun(cat: Catalogue, s: RuntimeState, turns: seq<Turn>, setting: Setting)
    decreases |turns|
  {
    turns == [] ||
    (&& Possible(cat, s, turns[0].call)
     && CallStep(cat, s, turns[0].call, turns[0].outcome, turns[0].after, setting)
     && RuntimeRun(cat, turns[0].after, turns[1..], setting))
  }

  lemma OneTurn(cat: Catalogue, s: RuntimeState, turn: Turn, setting: Setting)
    requires Possible(cat, s, turn.call) && CallStep(cat, s, turn.call, turn.outcome, turn.after, setting)
    ensures RuntimeRun(cat, s, [turn], setting)
  {
    assert [turn][1..] == [];
  }

  function Last(s: RuntimeState, turns: seq<Turn>): RuntimeState {
    if turns == [] then s else turns[|turns| - 1].after
  }

  lemma LastOfPrefix(s: RuntimeState, turns: seq<Turn>, i: nat)
    requires 0 < i <= |turns|
    ensures Last(s, turns[..i]) == Last(turns[0].after, turns[1..][..i - 1])
    ensures turns[1..][i - 1..] == turns[i..]
  {
  }

  function AttemptOf(cat: Catalogue, s: RuntimeState, turn: Turn): Attempt
    requires turn.call.ReviewCall? ==> turn.call.k < |s.candidates|
  {
    Attempt(PromotionOf(cat, s, turn.call), turn.outcome, turn.call.w.reviewer, turn.call.w.gates)
  }

  ghost function Attempts(cat: Catalogue, s: RuntimeState, turns: seq<Turn>, setting: Setting): (r: seq<Attempt>)
    requires RuntimeRun(cat, s, turns, setting)
    ensures |r| == |turns|
    ensures forall i :: 0 <= i < |turns| ==> r[i].outcome == turns[i].outcome
    decreases |turns|
  {
    if turns == [] then []
    else [AttemptOf(cat, s, turns[0])] + Attempts(cat, turns[0].after, turns[1..], setting)
  }

  lemma AttemptsCons(cat: Catalogue, s: RuntimeState, turns: seq<Turn>, setting: Setting) returns (rest: seq<Attempt>)
    requires RuntimeRun(cat, s, turns, setting) && turns != []
    ensures RuntimeRun(cat, turns[0].after, turns[1..], setting)
    ensures rest == Attempts(cat, turns[0].after, turns[1..], setting)
    ensures Attempts(cat, s, turns, setting) == [AttemptOf(cat, s, turns[0])] + rest
    ensures Last(s, turns) == Last(turns[0].after, turns[1..])
  {
    rest := Attempts(cat, turns[0].after, turns[1..], setting);
  }

  lemma TurnIsAttempt(cat: Catalogue, s: RuntimeState, turn: Turn, setting: Setting)
    requires Possible(cat, s, turn.call)
    requires CallStep(cat, s, turn.call, turn.outcome, turn.after, setting)
    ensures var a := AttemptOf(cat, s, turn);
            && a.promotion.cat == cat && a.promotion.active == s.Graph().active
            && Session(cat, s.Graph(), s.Stuck(), [a])
            && turn.after.Graph() == GraphStep(s.Graph(), OpOf(a.outcome, a.promotion))
            && (turn.after.Stuck() <==> StuckAfter(s.Stuck(), a.outcome))
  {
    match turn.call
    case CommitCall(id, p, judged, ready, approved, w) =>
      CommitIsSession(s, id, p, ready, approved, setting, w);
    case ReviewCall(k, w) =>
      ReviewIsSession(s, PromotionOf(cat, s, turn.call), s.candidates[k], setting, w);
  }

  lemma SessionCons(cat: Catalogue, g: GraphState, stuck: bool, a: Attempt, rest: seq<Attempt>)
    requires Session(cat, g, stuck, [a])
    requires Session(cat, GraphStep(g, OpOf(a.outcome, a.promotion)), StuckAfter(stuck, a.outcome), rest)
    ensures Session(cat, g, stuck, [a] + rest)
    ensures GraphRun(g, OpsOf([a] + rest))
            == GraphRun(GraphStep(g, OpOf(a.outcome, a.promotion)), OpsOf(rest))
  {
    assert ([a] + rest)[1..] == rest && [a][0] == a;
    assert ([OpOf(a.outcome, a.promotion)] + OpsOf(rest))[1..] == OpsOf(rest);
  }

  /** Every run of the runtime is a session, and its graph is what the session's steps make of the first one. */
  lemma {:induction false} RunIsSession(cat: Catalogue, s: RuntimeState, turns: seq<Turn>, setting: Setting)
    requires RuntimeRun(cat, s, turns, setting)
    ensures Session(cat, s.Graph(), s.Stuck(), Attempts(cat, s, turns, setting))
    ensures GraphRun(s.Graph(), OpsOf(Attempts(cat, s, turns, setting))) == Last(s, turns).Graph()
    decreases |turns|
  {
    if turns == [] {
    } else {
      var rest := AttemptsCons(cat, s, turns, setting);
      TurnIsAttempt(cat, s, turns[0], setting);
      RunIsSession(cat, turns[0].after, turns[1..], setting);
      SessionCons(cat, s.Graph(), s.Stuck(), AttemptOf(cat, s, turns[0]), rest);
    }
  }

  /** A runtime just built: nothing committed, recorded, drained or kept. */
  predicate JustBuilt(s: RuntimeState) {
    Initial(s.Graph()) && s.candidates == [] && !s.Stuck()
  }

  /** From a runtime just built, whatever is approved: the active graph always has its shape. */
  lemma RuntimeKeepsShape(cat: Catalogue, s: RuntimeState, turns: seq<Turn>, setting: Setting)
    requires JustBuilt(s) && RuntimeRun(cat, s, turns, setting)
    ensures Last(s, turns).active.Some? ==> Structural(cat, Last(s, turns).active.value)
  {
    var attempts := Attempts(cat, s, turns, setting);
    RunIsSession(cat, s, turns, setting);
    SessionAdmitted(cat, s.Graph(), s.Stuck(), attempts);
    FreshIsConsistent(s.store);
    OnlyGraphsInShape(cat, s.Graph(), OpsOf(attempts));
  }

  predicate WithoutApprovals(turns: seq<Turn>) {
    forall i :: 0 <= i < |turns| && turns[i].call.CommitCall? ==> turns[i].call.promotion.authorized == {}
  }

  lemma {:induction false} NothingAuthorized(cat: Catalogue, s: RuntimeState, turns: seq<Turn>, setting: Setting)
    requires RuntimeRun(cat, s, turns, setting) && WithoutApprovals(turns)
    ensures forall a :: a in Attempts(cat, s, turns, setting) ==> a.promotion.authorized == {}
    decreases |turns|
  {
    if turns == [] {
    } else {
      var rest := AttemptsCons(cat, s, turns, setting);
      assert forall i :: 0 <= i < |turns| - 1 ==> turns[1..][i] == turns[i + 1];
      NothingAuthorized(cat, turns[0].after, turns[1..], setting);
    }
  }

  /**
   * From a runtime just built, without approvals: the connections around a manifest-protected component
   * stay those of the first graph cut over to, however calls are refused, deferred, reviewed or fail.
   */
  lemma RuntimeKeepsBoundary(
    cat: Catalogue, s: RuntimeState, turns: seq<Turn>, setting: Setting, i: nat, c: Id)
    requires JustBuilt(s) && RuntimeRun(cat, s, turns, setting) && cat.IsProtected(c)
    requires WithoutApprovals(turns)
    requires i < |turns| && CutsOver(turns[i].outcome) && forall j :: 0 <= j < i ==> !CutsOver(turns[j].outcome)
    ensures Last(s, turns).active.Some?
    ensures IncidentWires(Last(s, turns).active.value.edges, c)
         == IncidentWires(Attempts(cat, s, turns, setting)[i].promotion.candidate.edges, c)
  {
    var attempts := Attempts(cat, s, turns, setting);
    RunIsSession(cat, s, turns, setting);
    NothingAuthorized(cat, s, turns, setting);
    FirstCutoverFixesBoundary(cat, s.Graph(), s.Stuck(), attempts, i, c);
  }

  /** After a drain that did not open or a replayed emission that raised, no call ever cuts over again. */
  lemma RuntimeStaysBroken(cat: Catalogue, s: RuntimeState, turns: seq<Turn>, setting: Setting, i: nat, j: nat)
    requires RuntimeRun(cat, s, turns, setting) && i < j < |turns|
    requires turns[i].outcome.NotCutOver? || turns[i].outcome.ReplayRaised?
    ensures !CutsOver(turns[j].outcome)
  {
    RunIsSession(cat, s, turns, setting);
    BrokenDrainIsFinal(cat, s.Graph(), s.Stuck(), Attempts(cat, s, turns, setting), i, j);
  }

  // -------------------------------------------------------- honest records

  lemma TurnKeepsHonest(cat: Catalogue, s: RuntimeState, turn: Turn, setting: Setting)
    requires Possible(cat, s, turn.call) && AllHonest(cat, s.candidates)
    requires CallStep(cat, s, turn.call, turn.outcome, turn.after, setting)
    ensures AllHonest(cat, turn.after.candidates)
    ensures turn.call.ReviewCall? && CutsOver(turn.outcome) ==>
              s.candidates[turn.call.k].report == ValidationReport(true, [])
  {
    match turn.call
    case CommitCall(id, p, judged, ready, approved, w) =>
      CommitKeepsHonest(p, s.candidates, id, s, judged, ready, approved, setting, w);
    case ReviewCall(k, w) =>
      var c := s.candidates[k];
      assert c in s.candidates;
      ReviewKeepsHonest(s, PromotionOf(cat, s, turn.call), c, setting, w);
  }

  /** Records are honest in every state of a run that starts with honest records. */
  lemma {:induction false} HonestThroughout(
    cat: Catalogue, s: RuntimeState, turns: seq<Turn>, setting: Setting, i: nat)
    requires AllHonest(cat, s.candidates) && RuntimeRun(cat, s, turns, setting) && i <= |turns|
    ensures AllHonest(cat, Last(s, turns[..i]).candidates)
    ensures RuntimeRun(cat, Last(s, turns[..i]), turns[i..], setting)
    decreases i
  {
    if i == 0 {
      assert turns[..i] == [] && turns[i..] == turns;
    } else {
      FirstTurn(cat, s, turns, setting);
      HonestThroughout(cat, turns[0].after, turns[1..], setting, i - 1);
      LastOfPrefix(s, turns, i);
    }
  }

  lemma FirstTurn(cat: Catalogue, s: RuntimeState, turns: seq<Turn>, setting: Setting)
    requires AllHonest(cat, s.candidates) && RuntimeRun(cat, s, turns, setting) && turns != []
    ensures AllHonest(cat, turns[0].after.candidates) && RuntimeRun(cat, turns[0].after, turns[1..], setting)
    ensures turns[0].call.ReviewCall? && CutsOver(turns[0].outcome) ==> Flawless(s, turns[0].call.k)
  {
    TurnKeepsHonest(cat, s, turns[0], setting);
  }

  /** A record whose report is valid and lists nothing. */
  predicate Flawless(s: RuntimeState, k: nat) {
    k < |s.candidates| && s.candidates[k].report == ValidationReport(true, [])
  }

  /**
   * In every run that starts with honest records, no late review ever has to declare a report valid by
   * force: a record that a review cuts over to was found without a flaw when it was judged.
   */
  lemma NeverForced(cat: Catalogue, s: RuntimeState, turns: seq<Turn>, setting: Setting, i: nat)
    requires AllHonest(cat, s.candidates) && RuntimeRun(cat, s, turns, setting) && i < |turns|
    requires turns[i].call.ReviewCall? && CutsOver(turns[i].outcome)
    ensures Flawless(Last(s, turns[..i]), turns[i].call.k)
  {
    HonestThroughout(cat, s, turns, setting, i);
    FirstTurn(cat, Last(s, turns[..i]), turns[i..], setting);
  }
}
