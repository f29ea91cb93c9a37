/** What the calls of the runtime do to its state as a whole, and what follows for a promotion. */
module RuntimeSteps {
  import opened Ids
  import opened Models
  import opened GraphShape
  import opened GraphVersions
  import opened VersionRuns
  import opened EventBus
  import opened Routing
  import opened ConnectionEngine
  import opened Lifecycle
  import opened Drain
  import opened DrainRuns
  import opened PhaseRuns
  import opened SafetyPipeline
  import opened GraphRuns
  import opened Sessions
  import opened Judgement

  datatype CutoverOutcome = CutoverDone | DrainRefused(begin: BeginOutcome) | ReplayFailed | EventsFailed

  /** What other parts of the runtime contribute to one promotion. */
  datatype Surroundings = Surroundings(
    unready: set<Id>,                  // components whose health check fails
    reviewer: Option<GateDecision>,    // the policy component's decision, if there is one
    gates: seq<Gate>,
    probes: seq<bool>,                 // post-commit health probes
    before: seq<EpochOp>,              // emissions and events during the drain, before the graph is loaded
    after: seq<EpochOp>)               // and after it

  /** What stays fixed: the components a drain may suspend, and its bounds. */
  datatype Setting = Setting(components: set<Id>, policy: DrainPolicy)

  datatype RuntimeState = RuntimeState(
    store: StoreState, active: Option<GraphSnapshot>, engine: EngineState, bus: BusState, phases: Phases,
    candidates: seq<CandidateRecord>, recorded: seq<int>, epochOpen: bool, hooks: seq<Hook>)
  {
    function Graph(): GraphState {
      GraphState(store, active, engine.routeTable)
    }

    function Traffic(): System {
      System(engine, bus)
    }

    /** How the next drain begins. */
    function Opening(): BeginOutcome {
      if epochOpen then EpochActive
      else if engine.epoch.Some? then RouteDrainActive
      else if bus.epoch.Some? then EventDrainActive
      else if engine.inflight != 0 then TimedOut
      else Begun
    }

    /** An epoch or a drain is left over: every later drain fails to begin. */
    predicate Stuck() {
      epochOpen || engine.epoch.Some? || bus.epoch.Some?
    }
  }

  // ------------------------------------------------------------- drained loads

  predicate TrafficOnly(ops: seq<EpochOp>) {
    forall op :: op in ops ==> !op.CutoverOp?
  }

  predicate Quiet(w: Surroundings) {
    TrafficOnly(w.before) && TrafficOnly(w.after)
  }

  function NodeIdList(nodes: seq<ComponentNode>): seq<Id> {
    seq(|nodes|, k requires 0 <= k < |nodes| => nodes[k].componentId)
  }

  /** The components a drain for this graph suspends. */
  function Suspendable(g: GraphSnapshot, components: set<Id>): seq<Id> {
    Targets(NodeIdList(g.nodes), components)
  }

  /** The place of the first node of that id, or the number of nodes. */
  function FirstNode(nodes: seq<ComponentNode>, c: Id): (k: nat)
    ensures k <= |nodes| && (k < |nodes| ==> nodes[k].componentId == c)
    ensures forall j :: 0 <= j < k ==> nodes[j].componentId != c
  {
    if nodes == [] || nodes[0].componentId == c then 0 else 1 + FirstNode(nodes[1..], c)
  }

  /**
   * The hooks a drain for these nodes runs: each known component among them is suspended once, in the order
   * in which the components first occur, and then all are resumed in reverse.
   */
  ghost predicate HooksOfDrain(hooks: seq<Hook>, nodes: seq<ComponentNode>, components: set<Id>) {
    var n := |hooks| / 2;
    && |hooks| % 2 == 0
    && (forall i :: 0 <= i < n ==> hooks[i].SuspendHook? && hooks[|hooks| - 1 - i] == ResumeHook(hooks[i].component))
    && (forall c :: c in NodeIds(nodes) && c in components <==> exists i :: 0 <= i < n && hooks[i] == SuspendHook(c))
    && (forall i, j :: 0 <= i < j < n ==>
          FirstNode(nodes, hooks[i].component) < FirstNode(nodes, hooks[j].component))
  }

  lemma SuspendableRunsHooks(g: GraphSnapshot, components: set<Id>)
    ensures var t := Suspendable(g, components);
            HooksOfDrain(SuspendHooks(t) + ResumeHooks(t), g.nodes, components)
  {
    var ids, t := NodeIdList(g.nodes), Suspendable(g, components);
    var hooks := SuspendHooks(t) + ResumeHooks(t);
    TargetsExactly(ids, components);
    forall i | 0 <= i < |t|
      ensures hooks[i] == SuspendHook(t[i]) && hooks[|hooks| - 1 - i] == ResumeHook(t[i])
    {
    }
    forall c
      ensures c in NodeIds(g.nodes) && c in components <==> exists i :: 0 <= i < |t| && hooks[i] == SuspendHook(c)
    {
      ListedNode(g.nodes, c);
      assert c in t <==> exists i :: 0 <= i < |t| && t[i] == c;
    }
    forall i, j | 0 <= i < j < |t| ensures FirstNode(g.nodes, t[i]) < FirstNode(g.nodes, t[j]) {
      FirstListed(g.nodes, t[i]);
      FirstListed(g.nodes, t[j]);
    }
  }

  lemma ListedNode(nodes: seq<ComponentNode>, c: Id)
    ensures c in NodeIdList(nodes) <==> c in NodeIds(nodes)
  {
    if n :| n in nodes && n.componentId == c {
      var k :| 0 <= k < |nodes| && nodes[k] == n;
      assert NodeIdList(nodes)[k] == c;
    }
  }

  lemma FirstListed(nodes: seq<ComponentNode>, c: Id)
    ensures FirstAt(NodeIdList(nodes), c) == FirstNode(nodes, c)
  {
    var k, j := FirstAt(NodeIdList(nodes), c), FirstNode(nodes, c);
    assert k < |nodes| ==> NodeIdList(nodes)[k] == nodes[k].componentId;
    assert j < |nodes| ==> NodeIdList(nodes)[j] == nodes[j].componentId;
  }

  function EpochId(candidateId: string, g: GraphSnapshot): string {
    "drain-" + candidateId + "-" + Numeral(g.graphVersion)
  }

  /** Drains for different candidates or versions have different epochs, as long as versions are not negative. */
  lemma EpochIdsDiffer(c: string, g: GraphSnapshot, d: string, h: GraphSnapshot)
    requires g.graphVersion >= 0 && h.graphVersion >= 0
    ensures EpochId(c, g) == EpochId(d, h) <==> c == d && g.graphVersion == h.graphVersion
  {
    DigitsReadBack(g.graphVersion);
    DigitsReadBack(h.graphVersion);
    if EpochId(c, g) == EpochId(d, h) {
      LastDashDecides("drain-" + c, Numeral(g.graphVersion), "drain-" + d, Numeral(h.graphVersion));
      SamePrefix("drain-", c, d);
      NumeralsDiffer(g.graphVersion, h.graphVersion);
    }
  }

  lemma SamePrefix(p: string, a: string, b: string)
    ensures p + a == p + b <==> a == b
  {
    assert (p + a)[|p|..] == a && (p + b)[|p|..] == b;
  }

  lemma LastDashDecides(a: string, m: string, b: string, n: string)
    requires a + "-" + m == b + "-" + n
    requires (forall k :: 0 <= k < |m| ==> IsDigit(m[k])) && forall k :: 0 <= k < |n| ==> IsDigit(n[k])
    ensures a == b && m == n
  {
    var s, t := a + "-" + m, b + "-" + n;
    assert s[|a|] == '-' && t[|b|] == '-';
    assert forall k :: |a| < k < |s| ==> s[k] == m[k - |a| - 1] && IsDigit(s[k]);
    assert forall k :: |b| < k < |t| ==> t[k] == n[k - |b| - 1] && IsDigit(t[k]);
    assert |a| == |b|;
    assert s[..|a|] == a && t[..|b|] == b && s[|a| + 1..] == m && t[|b| + 1..] == n;
  }

  function DuringDrain(g: GraphSnapshot, w: Surroundings): seq<EpochOp> {
    w.before + [CutoverOp(g.edges)] + w.after
  }

  /** What a drained load does to engine and bus. */
  function Loaded(s: System, candidateId: string, g: GraphSnapshot, policy: DrainPolicy, w: Surroundings)
    : (r: (System, Closing))
  {
    EpochClosed(EpochRun(Opened(s, EpochId(candidateId, g), policy), DuringDrain(g, w)), policy.replayBuffered)
  }

  lemma TrafficAround(s: System, before: seq<EpochOp>, op: EpochOp, after: seq<EpochOp>)
    ensures EpochRun(s, before + [op] + after) == EpochRun(EpochStep(EpochRun(s, before), op), after)
  {
    EpochRunAppended(s, before + [op], after);
    assert (before + [op])[..|before|] == before;
  }

  lemma {:induction false} TrafficKeepsTable(s: System, ops: seq<EpochOp>)
    requires TrafficOnly(ops)
    ensures EpochRun(s, ops).engine.routeTable == s.engine.routeTable
    decreases |ops|
  {
    if ops == [] {
    } else {
      assert ops[|ops| - 1] in ops && forall op :: op in ops[..|ops| - 1] ==> op in ops;
      TrafficKeepsTable(s, ops[..|ops| - 1]);
    }
  }

  /** A drained load installs the new table, and leaves a drain behind exactly when a replayed emission raises. */
  lemma LoadedLeaves(s: System, candidateId: string, g: GraphSnapshot, policy: DrainPolicy, w: Surroundings)
    requires Quiet(w)
    ensures var (done, how) := Loaded(s, candidateId, g, policy, w);
            && done.engine.routeTable == Compiled(g.edges)
            && done.engine.epoch.None? && (done.bus.epoch.None? <==> how != RoutesRaised)
            && done.bus.subscribers == s.bus.subscribers && s.bus.history <= done.bus.history
  {
    var start, ops := Opened(s, EpochId(candidateId, g), policy), DuringDrain(g, w);
    TrafficKeepsDrains(start, ops);
    TrafficAround(start, w.before, CutoverOp(g.edges), w.after);
    TrafficKeepsTable(EpochStep(EpochRun(start, w.before), CutoverOp(g.edges)), w.after);
    ClosingLeaves(EpochRun(start, ops), policy.replayBuffered);
  }

  // ----------------------------------------------------------- what calls do

  /** The record the engine keeps of what it commits; the store's own cutover keeps none. */
  function RecordKept(candidateId: string, g: GraphSnapshot, report: Option<ValidationReport>): seq<CandidateRecord> {
    if report.Some? then [CandidateRecord(candidateId, g, report.value, true, false)] else []
  }

  /** The graph loaded: by the engine, with a record, or by the store. */
  ghost function LoadedOnce(
    s: RuntimeState, candidateId: string, g: GraphSnapshot, report: Option<ValidationReport>)
    : RuntimeState
  {
    s.(store := GraphVersions.Committed(s.store, g), active := Some(g),
       engine := s.engine.(routeTable := Compiled(g.edges)),
       candidates := s.candidates + RecordKept(candidateId, g, report), recorded := s.recorded + [g.graphVersion])
  }

  /** The graph loaded while the drain is open, with the traffic around it. */
  ghost function LoadedUnderDrain(
    s: RuntimeState, candidateId: string, g: GraphSnapshot, report: Option<ValidationReport>, w: Surroundings)
    : RuntimeState
  {
    var t := EpochRun(s.Traffic(), DuringDrain(g, w));
    s.(store := GraphVersions.Committed(s.store, g), active := Some(g), engine := t.engine, bus := t.bus,
       candidates := s.candidates + RecordKept(candidateId, g, report), recorded := s.recorded + [g.graphVersion])
  }

  /** The open epoch closed, its components resumed. */
  function Closed(s: RuntimeState, previous: Phases, suspended: seq<Id>, setting: Setting): (RuntimeState, Closing) {
    var (t, how) := EpochClosed(s.Traffic(), setting.policy.replayBuffered);
    (s.(engine := t.engine, bus := t.bus,
        phases := ResumedPhases(s.phases, previous, suspended), epochOpen := false,
        hooks := s.hooks + ResumeHooks(suspended)), how)
  }

  /** What a drain that does not open leaves. */
  function NotOpened(s: RuntimeState, candidateId: string, g: GraphSnapshot, setting: Setting): RuntimeState {
    var t := HalfOpened(s.Traffic(), s.Opening(), EpochId(candidateId, g), setting.policy);
    s.(engine := t.engine, bus := t.bus, epochOpen := true)
  }

  /** An epoch open and the components of the graph suspended. */
  function Suspending(s: RuntimeState, candidateId: string, g: GraphSnapshot, setting: Setting): RuntimeState {
    var t, targets := Opened(s.Traffic(), EpochId(candidateId, g), setting.policy), Suspendable(g, setting.components);
    s.(engine := t.engine, bus := t.bus, phases := SuspendedPhases(s.phases, targets), epochOpen := true,
       hooks := s.hooks + SuspendHooks(targets))
  }

  function CutoverEnd(how: Closing): CutoverOutcome {
    match how
    case Returned => CutoverDone
    case RoutesRaised => ReplayFailed
    case EventsUnheard => EventsFailed
  }

  /** `_cutover_graph_with_drain`. */
  ghost function DrainedCutover(
    s: RuntimeState, candidateId: string, g: GraphSnapshot, report: Option<ValidationReport>, setting: Setting,
    w: Surroundings)
    : (RuntimeState, CutoverOutcome)
  {
    if s.Opening() != Begun then (NotOpened(s, candidateId, g, setting), DrainRefused(s.Opening()))
    else
      var (t, how) := Loaded(s.Traffic(), candidateId, g, setting.policy, w);
      var suspended := Suspendable(g, setting.components);
      (RuntimeState(GraphVersions.Committed(s.store, g), Some(g), t.engine, t.bus, Bracketed(s.phases, suspended),
                    s.candidates + RecordKept(candidateId, g, report), s.recorded + [g.graphVersion], false,
                    s.hooks + SuspendHooks(suspended) + ResumeHooks(suspended)),
       CutoverEnd(how))
  }

  lemma CutoverInSteps(
    s: RuntimeState, candidateId: string, g: GraphSnapshot, report: Option<ValidationReport>, setting: Setting,
    w: Surroundings)
    requires s.Opening() == Begun
    ensures var targets := Suspendable(g, setting.components);
            var during := LoadedUnderDrain(Suspending(s, candidateId, g, setting), candidateId, g, report, w);
            var (t, how) := Closed(during, Remembered(s.phases, targets), targets, setting);
            && DrainedCutover(s, candidateId, g, report, setting, w) == (t, CutoverEnd(how))
            && HooksRun(s.hooks, t.hooks, true, g.nodes, setting.components)
  {
    CutoverRunsHooks(s.hooks, g, setting.components);
  }

  function VersionOr(active: Option<int>, version: int): int {
    if active.Some? && active.value != 0 then active.value else version
  }

  /** The roll-back after a failed probe, which also records the version it ends on. */
  function Restored(s: RuntimeState, g: GraphSnapshot): RuntimeState {
    var r := Reverted(s.Graph());
    s.(store := r.store, active := r.active, engine := s.engine.(routeTable := r.table),
       recorded := s.recorded + [VersionOr(r.store.active, g.graphVersion)])
  }

  /** What follows a cutover: the phases of the nodes, then the health check. */
  function Settled(s: RuntimeState, g: GraphSnapshot, tracked: bool, probes: seq<bool>)
    : (RuntimeState, CommitOutcome)
  {
    var (phases, ok) := if tracked then CommitPhases(s.phases, g.nodes) else (s.phases, true);
    var t := s.(phases := phases);
    if !ok then (t, PhaseRefused)
    else if false in probes then (Restored(t, g), Unhealthy)
    else (t, CommittedVersion(g.graphVersion))
  }

  /** The drained cutover and what follows it. */
  ghost function DrainedPromotion(
    s: RuntimeState, candidateId: string, g: GraphSnapshot, report: Option<ValidationReport>, setting: Setting,
    w: Surroundings)
    : (RuntimeState, CommitOutcome)
  {
    var (t, cutover) := DrainedCutover(s, candidateId, g, report, setting, w);
    match cutover
    case DrainRefused(begin) => (t, NotCutOver(begin))
    case ReplayFailed => (t, CommitOutcome.ReplayRaised)
    case EventsFailed => (t, CommitOutcome.EventsRaised)
    case CutoverDone => Settled(t, g, report.Some?, w.probes)
  }

  function Told(name: string, candidateId: string): Event {
    Event(name, candidateId, None, map[])
  }

  /** Publishing an event: false when that raises. */
  function Announced(s: RuntimeState, name: string, candidateId: string): (RuntimeState, bool) {
    var (bus, heard) := AfterPublish(s.bus, Told(name, candidateId));
    (s.(bus := bus), heard)
  }

  function RefusalEvent(deferred: bool): string {
    if deferred then "candidate_deferred" else "candidate_rejected"
  }

  /** A candidate that is turned down: recorded, its nodes' phases changed, the event published. */
  function TurnedAway(
    s: RuntimeState, candidateId: string, g: GraphSnapshot, report: ValidationReport, deferred: bool)
    : (RuntimeState, CommitOutcome)
  {
    var (phases, ok) := RejectPhases(s.phases, g.nodes, deferred);
    var t := s.(phases := phases,
                candidates := s.candidates + [CandidateRecord(candidateId, g, report, false, deferred)]);
    var (told, heard) := if ok then Announced(t, RefusalEvent(deferred), candidateId) else (t, false);
    (told, RefusalEnd(deferred, ok, heard))
  }

  /** A promotion that went through is announced; whoever is turned down or fails on the way is not. */
  function AnnouncedAfter(s: RuntimeState, outcome: CommitOutcome, candidateId: string): (RuntimeState, CommitOutcome) {
    if outcome.CommittedVersion? then
      var (t, heard) := Announced(s, "after_commit_graph", candidateId);
      (t, AfterEvent(outcome, heard))
    else (s, outcome)
  }

  /** The event before the commit, the promotion, the event after it. */
  ghost function AdmittedPromotion(
    s: RuntimeState, candidateId: string, g: GraphSnapshot, report: ValidationReport, setting: Setting,
    w: Surroundings)
    : (RuntimeState, CommitOutcome)
  {
    var (told, heard) := Announced(s, "before_commit_graph", candidateId);
    if !heard then (told, Unannounced)
    else
      var (t, outcome) := DrainedPromotion(told, candidateId, g, Some(report), setting, w);
      AnnouncedAfter(t, outcome, candidateId)
  }

  /** A reviewed record that is turned down: only its flags change. */
  function ReviewedAway(s: RuntimeState, c: CandidateRecord, deferred: bool): (RuntimeState, CommitOutcome) {
    var t := s.(candidates := Updated(s.candidates, c.(promoted := false, deferred := deferred)));
    var (told, heard) := Announced(t, RefusalEvent(deferred), c.candidateId);
    (told, RefusalEnd(deferred, true, heard))
  }

  /** A reviewed record that is promoted. */
  ghost function ReviewedPromotion(s: RuntimeState, c: CandidateRecord, setting: Setting, w: Surroundings)
    : (RuntimeState, CommitOutcome)
  {
    var (t, outcome) := DrainedPromotion(s, c.candidateId, c.snapshot, None, setting, w);
    var u := if outcome.CommittedVersion? then t.(candidates := Updated(t.candidates, Adopted(c))) else t;
    AnnouncedAfter(u, outcome, c.candidateId)
  }

  // --------------------------------------------------------- what follows

  lemma {:induction false} TrafficAfterLoad(table: RouteTable, ops: seq<EpochOp>, after: seq<EpochOp>)
    requires TrafficOnly(after)
    ensures TableAfter(table, ops + after) == TableAfter(table, ops)
    decreases |after|
  {
    var all := ops + after;
    if after == [] {
      assert all == ops;
    } else {
      assert all[..|all| - 1] == ops + after[..|after| - 1];
      assert all[|all| - 1] == after[|after| - 1] && after[|after| - 1] in after;
      TrafficAfterLoad(table, ops, after[..|after| - 1]);
    }
  }

  /** What arrives before and after the load makes up the drain's arrivals, and the load sets the table. */
  lemma ArrivalsDuringDrain(table: RouteTable, g: GraphSnapshot, w: Surroundings)
    requires Quiet(w)
    ensures TableAfter(table, DuringDrain(g, w)) == Compiled(g.edges)
    ensures RoutesIn(DuringDrain(g, w)) == RoutesIn(w.before + w.after)
    ensures EventsIn(DuringDrain(g, w)) == EventsIn(w.before + w.after)
  {
    TrafficAfterLoad(table, w.before + [CutoverOp(g.edges)], w.after);
    ArrivalsAppended(w.before + [CutoverOp(g.edges)], w.after);
    ArrivalsAppended(w.before, w.after);
    assert (w.before + [CutoverOp(g.edges)])[..|w.before|] == w.before;
  }

  /**
   * A drained cutover that completes loses nothing it accepted: every emission held before or after the
   * load is dispatched once, in order of arrival, on the new graph and on no other, and every event held
   * or published meanwhile reaches the history and each of its subscribers once, as it was published.
   */
  lemma CutoverDispatches(
    s: RuntimeState, candidateId: string, g: GraphSnapshot, report: Option<ValidationReport>, setting: Setting,
    w: Surroundings)
    requires Quiet(w) && setting.policy.replayBuffered && 0 <= setting.policy.maxBufferedEvents
    requires DrainedCutover(s, candidateId, g, report, setting, w).1 == CutoverDone
    ensures var t, arrivals := DrainedCutover(s, candidateId, g, report, setting, w).0, w.before + w.after;
            var routes := Held(RoutesIn(arrivals), setting.policy.maxBufferedRoutes);
            var published := EventsOf(ReplayInvocations(Compiled(g.edges), s.engine.handlers, routes));
            var accepted := Held(Held(EventsIn(arrivals), setting.policy.maxBufferedEvents) + published,
                                 setting.policy.maxBufferedEvents);
            && t.engine.calls == s.engine.calls + AllCalls(Compiled(g.edges), s.engine.handlers, routes)
            && s.bus.history <= t.bus.history && s.bus.deliveries <= t.bus.deliveries
            && var sent := t.bus.history[|s.bus.history|..];
            && |sent| == |accepted|
            && Replays(sent, accepted, "drain-" + candidateId + "-" + Numeral(g.graphVersion))
            && HeardInTurn(t.bus.deliveries[|s.bus.deliveries|..], s.bus.subscribers, sent)
  {
    ArrivalsDuringDrain(s.engine.routeTable, g, w);
    ExactlyOnce(s.Traffic(), EpochId(candidateId, g), setting.policy, DuringDrain(g, w));
  }

  /** The phases a promotion leaves, by how it ended; only `commit_graph` tracks them beyond the drain. */
  function PhasesLeft(outcome: CommitOutcome, phases: Phases, g: GraphSnapshot, components: set<Id>, tracked: bool)
    : Phases
  {
    var bracketed := Bracketed(phases, Suspendable(g, components));
    if !CutsOver(outcome) then phases
    else if outcome.ReplayRaised? || outcome.EventsRaised? || !tracked then bracketed
    else CommitPhases(bracketed, g.nodes).0
  }

  /** The graph a promotion leaves: an unhealthy one is rolled back. */
  ghost function GraphLeft(outcome: CommitOutcome, graph: GraphState, g: GraphSnapshot): GraphState {
    if !CutsOver(outcome) then graph
    else if outcome.Unhealthy? then Reverted(CutOver(graph, g))
    else CutOver(graph, g)
  }

  lemma GraphLeftIsStep(outcome: CommitOutcome, graph: GraphState, p: Promotion)
    ensures GraphLeft(outcome, graph, p.candidate) == GraphStep(graph, OpOf(outcome, p))
  {
  }

  lemma CutoverMeans(
    s: RuntimeState, candidateId: string, g: GraphSnapshot, report: Option<ValidationReport>, setting: Setting,
    w: Surroundings)
    requires Quiet(w)
    ensures var (t, cutover) := DrainedCutover(s, candidateId, g, report, setting, w);
            && (cutover.DrainRefused? ==> s.Opening() == cutover.begin != Begun && t.Graph() == s.Graph())
            && (!cutover.DrainRefused? ==> s.Opening() == Begun && t.Graph() == CutOver(s.Graph(), g))
            && (!cutover.DrainRefused? ==>
                  cutover == CutoverEnd(Loaded(s.Traffic(), candidateId, g, setting.policy, w).1))
            && (t.Stuck() <==> cutover.DrainRefused? || cutover.ReplayFailed?)
            && (!cutover.DrainRefused? && !cutover.ReplayFailed? ==> t.bus.epoch.None?)
            && t.bus.subscribers == s.bus.subscribers && s.bus.history <= t.bus.history
            && HooksRun(s.hooks, t.hooks, !cutover.DrainRefused?, g.nodes, setting.components)
            && t.recorded == s.recorded + (if cutover.DrainRefused? then [] else [g.graphVersion])
  {
    CutoverRunsHooks(s.hooks, g, setting.components);
    if s.Opening() != Begun {
      HalfOpenedKeepsTable(s.Traffic(), s.Opening(), EpochId(candidateId, g), setting.policy);
    } else {
      LoadedLeaves(s.Traffic(), candidateId, g, setting.policy, w);
    }
  }

  lemma HalfOpenedKeepsTable(s: System, begin: BeginOutcome, epoch: string, policy: DrainPolicy)
    ensures HalfOpened(s, begin, epoch, policy).engine.routeTable == s.engine.routeTable
  {
  }

  lemma SettledMeans(s: RuntimeState, g: GraphSnapshot, tracked: bool, probes: seq<bool>)
    ensures var (t, outcome) := Settled(s, g, tracked, probes);
            && outcome == PromotionEnd(Begun, Returned, tracked ==> CommitPhases(s.phases, g.nodes).1,
                                       probes, g.graphVersion)
            && t.Graph() == (if outcome.Unhealthy? then Reverted(s.Graph()) else s.Graph())
            && t.phases == (if tracked then CommitPhases(s.phases, g.nodes).0 else s.phases)
            && t.candidates == s.candidates && t.bus == s.bus && (t.Stuck() <==> s.Stuck())
            && t.hooks == s.hooks
            && t.recorded == s.recorded
                 + (if !outcome.Unhealthy? then []
                    else if t.store.active in {None, Some(0)} then [g.graphVersion] else [t.store.active.value])
  {
  }

  /** The hooks of one drain have run, if the graph was cut over to, and none otherwise. */
  ghost predicate HooksRun(
    before: seq<Hook>, after: seq<Hook>, cutOver: bool, nodes: seq<ComponentNode>, components: set<Id>)
  {
    before <= after && if cutOver then HooksOfDrain(after[|before|..], nodes, components) else after == before
  }

  lemma CutoverRunsHooks(before: seq<Hook>, g: GraphSnapshot, components: set<Id>)
    ensures var t := Suspendable(g, components);
            HooksRun(before, before + SuspendHooks(t) + ResumeHooks(t), true, g.nodes, components)
  {
    var t := Suspendable(g, components);
    var run := SuspendHooks(t) + ResumeHooks(t);
    SuspendableRunsHooks(g, components);
    assert before + SuspendHooks(t) + ResumeHooks(t) == before + run;
    assert (before + run)[|before|..] == run;
  }

  /**
   * The versions recorded: that of a graph cut over to and, if it was rolled back, the one active after
   * that, or its own again when none is.
   */
  ghost predicate VersionsRecorded(s: RuntimeState, t: RuntimeState, outcome: CommitOutcome, g: GraphSnapshot) {
    if !CutsOver(outcome) then t.recorded == s.recorded
    else if !outcome.Unhealthy? then t.recorded == s.recorded + [g.graphVersion]
    else
      && |t.recorded| == |s.recorded| + 2 && s.recorded + [g.graphVersion] <= t.recorded
      && t.recorded[|s.recorded| + 1]
         == if t.store.active in {None, Some(0)} then g.graphVersion else t.store.active.value
  }

  /**
   * The graph, the phases, the hooks and the versions recorded that a promotion leaves, by how it ended, and
   * whether it leaves a drain. No event is taken out of the history.
   */
  ghost predicate Leaves(
    s: RuntimeState, t: RuntimeState, outcome: CommitOutcome, g: GraphSnapshot, setting: Setting, tracked: bool)
  {
    && t.Graph() == GraphLeft(outcome, s.Graph(), g)
    && t.phases == PhasesLeft(outcome, s.phases, g, setting.components, tracked)
    && HooksRun(s.hooks, t.hooks, CutsOver(outcome), g.nodes, setting.components)
    && VersionsRecorded(s, t, outcome, g)
    && s.bus.history <= t.bus.history
    && (t.Stuck() <==> StuckAfter(s.Stuck(), outcome))
  }

  lemma FailedDrainLeaves(
    s: RuntimeState, candidateId: string, g: GraphSnapshot, report: Option<ValidationReport>, setting: Setting,
    w: Surroundings)
    requires Quiet(w)
    requires s.Opening() != Begun || Loaded(s.Traffic(), candidateId, g, setting.policy, w).1 != Returned
    ensures var (t, outcome) := DrainedPromotion(s, candidateId, g, report, setting, w);
            && outcome == PromotionEnd(s.Opening(), Loaded(s.Traffic(), candidateId, g, setting.policy, w).1,
                                       true, w.probes, g.graphVersion)
            && Leaves(s, t, outcome, g, setting, report.Some?)
            && t.candidates == s.candidates + (if CutsOver(outcome) then RecordKept(candidateId, g, report) else [])
  {
    CutoverMeans(s, candidateId, g, report, setting, w);
    StuckMeansRefused(s);
  }

  lemma SettledLeaves(
    s: RuntimeState, candidateId: string, g: GraphSnapshot, report: Option<ValidationReport>, setting: Setting,
    w: Surroundings)
    requires Quiet(w)
    requires s.Opening() == Begun && Loaded(s.Traffic(), candidateId, g, setting.policy, w).1 == Returned
    ensures var (t, outcome) := DrainedPromotion(s, candidateId, g, report, setting, w);
            && outcome == PromotionEnd(Begun, Returned, report.Some? ==> Settleable(s.phases, NodeIds(g.nodes)),
                                       w.probes, g.graphVersion)
            && Leaves(s, t, outcome, g, setting, report.Some?)
            && t.candidates == s.candidates + RecordKept(candidateId, g, report)
            && t.bus.epoch.None? && t.bus.subscribers == s.bus.subscribers
  {
    var (t, cutover) := DrainedCutover(s, candidateId, g, report, setting, w);
    CutoverMeans(s, candidateId, g, report, setting, w);
    CutoverSettlesExactly(s.phases, Suspendable(g, setting.components), g.nodes);
    SettledMeans(t, g, report.Some?, w.probes);
    StuckMeansRefused(s);
  }

  /**
   * A promotion in full: the outcome by what it meets in turn, and for each outcome the graph, the phases,
   * the records and whether a drain is left over. The phases are refused exactly when some tracked node
   * was in no phase to start from before the call.
   */
  lemma PromotionMeans(
    s: RuntimeState, candidateId: string, g: GraphSnapshot, report: Option<ValidationReport>, setting: Setting,
    w: Surroundings)
    requires Quiet(w)
    ensures var (t, outcome) := DrainedPromotion(s, candidateId, g, report, setting, w);
            && outcome == PromotionEnd(
                            s.Opening(), Loaded(s.Traffic(), candidateId, g, setting.policy, w).1,
                            report.Some? ==> Settleable(s.phases, NodeIds(g.nodes)), w.probes, g.graphVersion)
            && Leaves(s, t, outcome, g, setting, report.Some?)
            && t.candidates == s.candidates + (if CutsOver(outcome) then RecordKept(candidateId, g, report) else [])
            && (outcome.CommittedVersion? ==> t.bus.epoch.None? && t.bus.subscribers == s.bus.subscribers)
  {
    if s.Opening() == Begun && Loaded(s.Traffic(), candidateId, g, setting.policy, w).1 == Returned {
      SettledLeaves(s, candidateId, g, report, setting, w);
    } else {
      FailedDrainLeaves(s, candidateId, g, report, setting, w);
    }
  }

  /**
   * When a probe fails, the graph that was active before the call is active after it exactly when the
   * drain did not open, the candidate was that graph, or everything up to the probes went well, there was
   * an active graph and the candidate did not overwrite it. Otherwise the unhealthy candidate is active.
   */
  lemma UnhealthyRolledBackExactly(
    s: RuntimeState, candidateId: string, g: GraphSnapshot, report: Option<ValidationReport>, setting: Setting,
    w: Surroundings)
    requires Quiet(w) && InPlace(s.Graph()) && false in w.probes
    ensures var t := DrainedPromotion(s, candidateId, g, report, setting, w).0;
            && (t.active == s.active <==>
                  || s.Opening() != Begun || s.active == Some(g)
                  || (&& Loaded(s.Traffic(), candidateId, g, setting.policy, w).1 == Returned
                      && (report.Some? ==> Settleable(s.phases, NodeIds(g.nodes)))
                      && s.active.Some? && g.graphVersion != s.store.active.value))
            && (t.active != s.active ==> t.active == Some(g))
  {
    var (t, outcome) := DrainedPromotion(s, candidateId, g, report, setting, w);
    PromotionMeans(s, candidateId, g, report, setting, w);
    assert t.active == t.Graph().active && s.active == s.Graph().active;
    if outcome.Unhealthy? {
      UnhealthyStaysExactly(s.Graph(), g);
      if s.active.Some? && g.graphVersion != s.store.active.value {
        PromoteThenRevert(s.Graph(), g);
      } else {
        SameVersionSameGraph(s.Graph(), g);
      }
    }
  }

  /** A candidate that overwrites the active version is either that version or takes its place. */
  lemma SameVersionSameGraph(s: GraphState, g: GraphSnapshot)
    requires InPlace(s) && (s.active.None? || g.graphVersion == s.store.active.value)
    ensures Reverted(CutOver(s, g)).active == Some(g)
  {
    UnhealthyStaysExactly(s, g);
  }

  lemma StuckMeansRefused(s: RuntimeState)
    ensures s.Stuck() ==> s.Opening() != Begun
  {
  }

  /** How `commit_graph` ends for a candidate it admits. */
  function CommitEnd(
    s: RuntimeState, candidateId: string, g: GraphSnapshot, setting: Setting, w: Surroundings)
    : (r: CommitOutcome)
    ensures !TurnedDown(r) && !r.NoSuchCandidate?
  {
    var (told, heard) := Announced(s, "before_commit_graph", candidateId);
    if !heard then Unannounced
    else
      AfterEvent(PromotionEnd(s.Opening(), Loaded(told.Traffic(), candidateId, g, setting.policy, w).1,
                              Settleable(s.phases, NodeIds(g.nodes)), w.probes, g.graphVersion),
                 Heard(s.bus.subscribers, Told("after_commit_graph", candidateId)))
  }

  /** An event that tells something about a candidate. */
  predicate IsTold(e: Event, name: string, candidateId: string) {
    e == Event(name, candidateId, None, map[])
  }

  /**
   * How `commit_graph` ends for a candidate it admits, each way exactly when everything before it went well:
   * the event before the commit, the drain, the two replays, the phases, the probes and the event after it.
   */
  lemma CommitEndExactly(
    s: RuntimeState, candidateId: string, g: GraphSnapshot, setting: Setting, w: Surroundings, before: Event,
    after: Event)
    requires IsTold(before, "before_commit_graph", candidateId) && IsTold(after, "after_commit_graph", candidateId)
    ensures var outcome := CommitEnd(s, candidateId, g, setting, w);
            var told := System(s.engine, AfterPublish(s.bus, before).0);
            var how := Loaded(told, candidateId, g, setting.policy, w).1;
            && (outcome.Unannounced? <==> !Returns(s.bus, before))
            && (Returns(s.bus, before) ==>
                 && (outcome.NotCutOver? <==> s.Opening() != Begun)
                 && (outcome.NotCutOver? ==> outcome.begin == s.Opening())
                 && (s.Opening() == Begun ==>
                      && (outcome.ReplayRaised? <==> how == RoutesRaised)
                      && (outcome.EventsRaised? <==> how == EventsUnheard)
                      && (how == Returned ==> SettlesExactly(s, g, w, outcome, Heard(s.bus.subscribers, after)))))
  {
    assert before == Told("before_commit_graph", candidateId) && after == Told("after_commit_graph", candidateId);
  }

  /** How a commit ends after a drain that went well. */
  ghost predicate SettlesExactly(
    s: RuntimeState, g: GraphSnapshot, w: Surroundings, outcome: CommitOutcome, heard: bool)
  {
    var settled, healthy := Settleable(s.phases, NodeIds(g.nodes)), forall k :: 0 <= k < |w.probes| ==> w.probes[k];
    && (outcome.PhaseRefused? <==> !settled)
    && (outcome.Unhealthy? <==> settled && !healthy)
    && (outcome == CommittedUnheard(g.graphVersion) <==> settled && healthy && !heard)
    && (outcome == CommittedVersion(g.graphVersion) <==> settled && healthy && heard)
  }

  /** How a refusal ends: its phase changes may raise, and after them its event. */
  lemma RefusalEndExactly(s: RuntimeState, candidateId: string, g: GraphSnapshot, deferred: bool, setting: Setting,
                          w: Surroundings, event: Event)
    requires IsTold(event, if deferred then "candidate_deferred" else "candidate_rejected", candidateId)
    ensures var outcome := CallEnd(s, candidateId, g, false, deferred, setting, w);
            var settled := Settleable(s.phases, NodeIds(g.nodes)) && (deferred || DistinctNodes(g.nodes));
            && TurnedDown(outcome) && outcome.deferred == deferred
            && (outcome.RejectedMidway? <==> !settled)
            && (outcome.RejectedUnheard? <==> settled && !Returns(s.bus, event))
            && (outcome.Rejected? <==> settled && Returns(s.bus, event))
  {
    RefusalReturnsExactly(s.phases, g.nodes, deferred);
    assert event == Told(RefusalEvent(deferred), candidateId);
  }

  lemma AnnouncingMeans(s: RuntimeState, name: string, candidateId: string)
    ensures var (t, heard) := Announced(s, name, candidateId);
            && t == s.(bus := t.bus) && t.bus.epoch == s.bus.epoch && t.Graph() == s.Graph()
            && t.Opening() == s.Opening() && (t.Stuck() <==> s.Stuck())
            && t.bus.subscribers == s.bus.subscribers && s.bus.history <= t.bus.history
            && (s.bus.epoch.None? ==> t.bus.history == s.bus.history + [Event(name, candidateId, None, map[])])
            && (heard <==> Returns(s.bus, Told(name, candidateId)))
  {
  }

  /** An event told before a promotion does not change what the promotion leaves. */
  lemma LeavesAfterEvent(
    s: RuntimeState, told: RuntimeState, t: RuntimeState, outcome: CommitOutcome, g: GraphSnapshot, setting: Setting)
    requires told == s.(bus := told.bus) && told.bus.epoch == s.bus.epoch && s.bus.history <= told.bus.history
    requires Leaves(told, t, outcome, g, setting, true)
    ensures Leaves(s, t, outcome, g, setting, true)
  {
  }

  lemma UnannouncedLeaves(s: RuntimeState, told: RuntimeState, g: GraphSnapshot, setting: Setting)
    requires told == s.(bus := told.bus) && told.bus.epoch == s.bus.epoch && s.bus.history <= told.bus.history
    ensures Leaves(s, told, Unannounced, g, setting, true)
  {
  }

  lemma AdmittedMeans(
    s: RuntimeState, candidateId: string, g: GraphSnapshot, report: ValidationReport, setting: Setting,
    w: Surroundings)
    requires Quiet(w)
    ensures var (t, outcome) := AdmittedPromotion(s, candidateId, g, report, setting, w);
            && outcome == CommitEnd(s, candidateId, g, setting, w)
            && Leaves(s, t, outcome, g, setting, true)
            && t.candidates == s.candidates
                  + (if CutsOver(outcome) then RecordKept(candidateId, g, Some(report)) else [])
            && CommitTells(s, t, outcome, candidateId)
  {
    var (told, heard) := Announced(s, "before_commit_graph", candidateId);
    AnnouncingMeans(s, "before_commit_graph", candidateId);
    if heard {
      PromotionMeans(told, candidateId, g, Some(report), setting, w);
      var (t, outcome) := DrainedPromotion(told, candidateId, g, Some(report), setting, w);
      AnnouncedAfterMeans(told, t, outcome, candidateId, g, setting, true);
      var (u, end) := AnnouncedAfter(t, outcome, candidateId);
      LeavesAfterEvent(s, told, u, end, g, setting);
    } else {
      UnannouncedLeaves(s, told, g, setting);
    }
  }

  /** The event that says a graph is about to be committed comes first, the one that says it was comes last. */
  ghost predicate CommitTells(s: RuntimeState, t: RuntimeState, outcome: CommitOutcome, candidateId: string) {
    && (s.bus.epoch.None? ==>
          s.bus.history + [Event("before_commit_graph", candidateId, None, map[])] <= t.bus.history)
    && (GoneThrough(outcome) ==> LastTold(t.bus.history, "after_commit_graph", candidateId))
  }

  predicate LastTold(history: seq<Event>, name: string, payload: string) {
    history != [] && history[|history| - 1] == Event(name, payload, None, map[])
  }

  /** The last event tells of a refusal, unless a phase change of it raised. */
  ghost predicate RefusalTells(s: RuntimeState, t: RuntimeState, outcome: CommitOutcome, candidateId: string)
    requires TurnedDown(outcome)
  {
    s.bus.epoch.None? ==>
      t.bus.history == s.bus.history
        + (if outcome.RejectedMidway? then []
           else [Event(if outcome.deferred then "candidate_deferred" else "candidate_rejected",
                       candidateId, None, map[])])
  }

  /** The event after a commit changes nothing but the bus, and at most turns the outcome into an unheard one. */
  lemma AnnouncedAfterMeans(
    s: RuntimeState, t: RuntimeState, outcome: CommitOutcome, candidateId: string, g: GraphSnapshot, setting: Setting,
    tracked: bool)
    requires Leaves(s, t, outcome, g, setting, tracked)
    requires outcome.CommittedVersion? ==> t.bus.epoch.None? && t.bus.subscribers == s.bus.subscribers
    ensures var (u, end) := AnnouncedAfter(t, outcome, candidateId);
            && end == AfterEvent(outcome, Heard(s.bus.subscribers, Told("after_commit_graph", candidateId)))
            && Leaves(s, u, end, g, setting, tracked) && u.candidates == t.candidates
            && (CutsOver(end) <==> CutsOver(outcome)) && (GoneThrough(end) <==> GoneThrough(outcome))
            && t.bus.history <= u.bus.history
            && (outcome.CommittedVersion? ==> LastTold(u.bus.history, "after_commit_graph", candidateId))
  {
    AnnouncingMeans(t, "after_commit_graph", candidateId);
  }

  lemma TurnedAwayMeans(
    s: RuntimeState, candidateId: string, g: GraphSnapshot, report: ValidationReport, deferred: bool)
    ensures var (t, outcome) := TurnedAway(s, candidateId, g, report, deferred);
            && outcome == RefusalEnd(deferred, RejectPhases(s.phases, g.nodes, deferred).1,
                                     Returns(s.bus, Told(RefusalEvent(deferred), candidateId)))
            && t.Graph() == s.Graph() && t.phases == RejectPhases(s.phases, g.nodes, deferred).0
            && t.hooks == s.hooks && t.recorded == s.recorded
            && t.candidates == s.candidates + [CandidateRecord(candidateId, g, report, false, deferred)]
            && RefusalTells(s, t, outcome, candidateId)
            && (t.Stuck() <==> s.Stuck())
  {
  }

  /** How the promotion of a reviewed record ends: its nodes' phases are not changed. */
  function ReviewedEnd(s: RuntimeState, c: CandidateRecord, setting: Setting, w: Surroundings): (r: CommitOutcome)
    ensures !TurnedDown(r) && !r.NoSuchCandidate?
  {
    AfterEvent(PromotionEnd(s.Opening(), Loaded(s.Traffic(), c.candidateId, c.snapshot, setting.policy, w).1,
                            true, w.probes, c.snapshot.graphVersion),
               Heard(s.bus.subscribers, Told("after_commit_graph", c.candidateId)))
  }

  /** How a review of the deferred record `c` ends. */
  ghost function ReviewEnd(s: RuntimeState, p: Promotion, c: CandidateRecord, setting: Setting, w: Surroundings)
    : (r: CommitOutcome)
    ensures !r.NoSuchCandidate?
  {
    if Blocks(c.report.issues) || !GatesAllow(p, w.reviewer, w.gates) then
      var deferred := !Blocks(c.report.issues) && DefersFirst(p, w.reviewer, w.gates);
      RefusalEnd(deferred, true, Returns(s.bus, Told(RefusalEvent(deferred), c.candidateId)))
    else
      ReviewedEnd(s, c, setting, w)
  }

  /**
   * How a review ends: turned down exactly when an issue of the record blocks or reviewer or a gate does not
   * allow, and deferred again exactly when nothing blocks and the first to refuse defers. Otherwise each way
   * exactly when everything before it went well, except that no phase change and no event comes first.
   */
  lemma ReviewEndExactly(
    s: RuntimeState, p: Promotion, c: CandidateRecord, setting: Setting, w: Surroundings, after: Event)
    requires IsTold(after, "after_commit_graph", c.candidateId)
    ensures var outcome := ReviewEnd(s, p, c, setting, w);
            var how := Loaded(s.Traffic(), c.candidateId, c.snapshot, setting.policy, w).1;
            var healthy, heard := forall k :: 0 <= k < |w.probes| ==> w.probes[k], Heard(s.bus.subscribers, after);
            var version := c.snapshot.graphVersion;
            && (TurnedDown(outcome) <==> Blocks(c.report.issues) || !GatesAllow(p, w.reviewer, w.gates))
            && (TurnedDown(outcome) ==>
                 (outcome.deferred <==> !Blocks(c.report.issues) && DefersFirst(p, w.reviewer, w.gates)))
            && (!TurnedDown(outcome) ==>
                 && (outcome.NotCutOver? <==> s.Opening() != Begun)
                 && (s.Opening() == Begun ==>
                      && (outcome.ReplayRaised? <==> how == RoutesRaised)
                      && (outcome.EventsRaised? <==> how == EventsUnheard)
                      && (outcome.Unhealthy? <==> how == Returned && !healthy)
                      && (outcome == CommittedUnheard(version) <==> how == Returned && healthy && !heard)
                      && (outcome == CommittedVersion(version) <==> how == Returned && healthy && heard)))
  {
    assert after == Told("after_commit_graph", c.candidateId);
  }

  lemma ReviewedMeans(s: RuntimeState, c: CandidateRecord, setting: Setting, w: Surroundings)
    requires Quiet(w)
    ensures var (t, outcome) := ReviewedPromotion(s, c, setting, w);
            && outcome == ReviewedEnd(s, c, setting, w)
            && Leaves(s, t, outcome, c.snapshot, setting, false)
            && t.candidates == (if GoneThrough(outcome) then Updated(s.candidates, Adopted(c)) else s.candidates)
            && (GoneThrough(outcome) ==> LastTold(t.bus.history, "after_commit_graph", c.candidateId))
  {
    PromotionMeans(s, c.candidateId, c.snapshot, None, setting, w);
    var (t, outcome) := DrainedPromotion(s, c.candidateId, c.snapshot, None, setting, w);
    assert t.candidates == s.candidates;
    var u := if outcome.CommittedVersion? then t.(candidates := Updated(t.candidates, Adopted(c))) else t;
    AnnouncedAfterMeans(s, u, outcome, c.candidateId, c.snapshot, setting, false);
  }

  // ------------------------------------------------------- the calls in full

  /** The report `commit_graph` commits with: valid, by force if need be. */
  function Forced(report: ValidationReport): ValidationReport {
    if report.valid then report else report.(valid := true)
  }

  /** How `commit_graph` ends for a candidate that is admitted, or turned down and perhaps deferred. */
  function CallEnd(
    s: RuntimeState, candidateId: string, g: GraphSnapshot, admitted: bool, deferred: bool, setting: Setting,
    w: Surroundings)
    : CommitOutcome
  {
    if admitted then CommitEnd(s, candidateId, g, setting, w)
    else RefusalEnd(deferred, RejectPhases(s.phases, g.nodes, deferred).1,
                    Returns(s.bus, Told(RefusalEvent(deferred), candidateId)))
  }

  lemma CallEnds(
    s: RuntimeState, candidateId: string, g: GraphSnapshot, report: ValidationReport, admitted: bool, deferred: bool,
    setting: Setting, w: Surroundings)
    ensures var outcome := CallEnd(s, candidateId, g, admitted, deferred, setting, w);
            && (TurnedDown(outcome) <==> !admitted)
            && outcome == if admitted then CommitEnd(s, candidateId, g, setting, w)
                          else TurnedAway(s, candidateId, g, report, deferred).1
  {
  }

  /** What holds of the report a candidate is judged by. */
  ghost predicate FairReport(report: ValidationReport, p: Promotion, ready: bool, approved: bool, w: Surroundings) {
    && (report.valid <==> report.issues == [])
    && (Blocks(report.issues) <==> !Unblocked(p, ready, approved))
    && LastingFlaws(p.cat, p.candidate, report.issues)
    && (Admissible(p, ready, approved, w.reviewer, w.gates) && SandboxGate in w.gates ==> report.valid)
  }

  function PhasesAfter(outcome: CommitOutcome, phases: Phases, g: GraphSnapshot, components: set<Id>): Phases {
    if TurnedDown(outcome) then RejectPhases(phases, g.nodes, outcome.deferred).0
    else PhasesLeft(outcome, phases, g, components, true)
  }

  /** The record a call of `commit_graph` leaves. */
  function RecordOf(outcome: CommitOutcome, candidateId: string, g: GraphSnapshot, judged: ValidationReport)
    : seq<CandidateRecord>
  {
    if TurnedDown(outcome) then [CandidateRecord(candidateId, g, judged, false, outcome.deferred)]
    else if CutsOver(outcome) then [CandidateRecord(candidateId, g, Forced(judged), true, false)]
    else []
  }

  /** What a call of `commit_graph` that ended with `outcome` made of the state. */
  ghost predicate CommitDone(
    s: RuntimeState, t: RuntimeState, outcome: CommitOutcome, candidateId: string, p: Promotion,
    judged: ValidationReport, setting: Setting)
  {
    && t.Graph() == GraphStep(s.Graph(), OpOf(outcome, p))
    && t.phases == PhasesAfter(outcome, s.phases, p.candidate, setting.components)
    && HooksRun(s.hooks, t.hooks, CutsOver(outcome), p.candidate.nodes, setting.components)
    && VersionsRecorded(s, t, outcome, p.candidate)
    && t.candidates == s.candidates + RecordOf(outcome, candidateId, p.candidate, judged)
    && (t.Stuck() <==> StuckAfter(s.Stuck(), outcome))
    && if TurnedDown(outcome) then RefusalTells(s, t, outcome, candidateId)
       else CommitTells(s, t, outcome, candidateId)
  }

  lemma AdmittedDone(
    s: RuntimeState, candidateId: string, p: Promotion, report: ValidationReport, setting: Setting, w: Surroundings)
    requires Quiet(w)
    ensures var (t, outcome) := AdmittedPromotion(s, candidateId, p.candidate, Forced(report), setting, w);
            && outcome == CommitEnd(s, candidateId, p.candidate, setting, w)
            && CommitDone(s, t, outcome, candidateId, p, report, setting)
  {
    AdmittedMeans(s, candidateId, p.candidate, Forced(report), setting, w);
    GraphLeftIsStep(CommitEnd(s, candidateId, p.candidate, setting, w), s.Graph(), p);
  }

  lemma RefusedDone(
    s: RuntimeState, candidateId: string, p: Promotion, report: ValidationReport, deferred: bool, setting: Setting)
    ensures var (t, outcome) := TurnedAway(s, candidateId, p.candidate, report, deferred);
            && outcome == RefusalEnd(deferred, RejectPhases(s.phases, p.candidate.nodes, deferred).1,
                                     Returns(s.bus, Told(RefusalEvent(deferred), candidateId)))
            && CommitDone(s, t, outcome, candidateId, p, report, setting)
  {
    var (t, outcome) := TurnedAway(s, candidateId, p.candidate, report, deferred);
    TurnedAwayMeans(s, candidateId, p.candidate, report, deferred);
    RefusalTurnsDown(outcome);
    GraphLeftIsStep(outcome, s.Graph(), p);
  }

  lemma RefusalTurnsDown(outcome: CommitOutcome)
    requires TurnedDown(outcome)
    ensures !CutsOver(outcome) && forall stuck :: StuckAfter(stuck, outcome) == stuck
  {
  }

  /** The records after the review of `c`: settled when it was turned down or committed, and only then. */
  function RecordsReviewed(outcome: CommitOutcome, candidates: seq<CandidateRecord>, c: CandidateRecord)
    : seq<CandidateRecord>
  {
    if TurnedDown(outcome) then Updated(candidates, c.(promoted := false, deferred := outcome.deferred))
    else if GoneThrough(outcome) then
      Updated(candidates, CandidateRecord(c.candidateId, c.snapshot, Forced(c.report), true, false))
    else candidates
  }

  /** What the review of the deferred record `c` that ended with `outcome` made of the state. */
  ghost predicate ReviewDone(
    s: RuntimeState, t: RuntimeState, outcome: CommitOutcome, p: Promotion, c: CandidateRecord, setting: Setting)
  {
    && t.Graph() == GraphStep(s.Graph(), OpOf(outcome, p))
    && t.phases == PhasesLeft(outcome, s.phases, c.snapshot, setting.components, false)
    && HooksRun(s.hooks, t.hooks, CutsOver(outcome), c.snapshot.nodes, setting.components)
    && VersionsRecorded(s, t, outcome, c.snapshot)
    && t.candidates == RecordsReviewed(outcome, s.candidates, c)
    && (t.Stuck() <==> StuckAfter(s.Stuck(), outcome))
    && (TurnedDown(outcome) ==> RefusalTells(s, t, outcome, c.candidateId))
    && (GoneThrough(outcome) ==> LastTold(t.bus.history, "after_commit_graph", c.candidateId))
  }

  lemma ReviewedPromotionDone(s: RuntimeState, p: Promotion, c: CandidateRecord, setting: Setting, w: Surroundings)
    requires Quiet(w) && p.candidate == c.snapshot
    ensures var (t, outcome) := ReviewedPromotion(s, c, setting, w);
            outcome == ReviewedEnd(s, c, setting, w) && ReviewDone(s, t, outcome, p, c, setting)
  {
    ReviewedMeans(s, c, setting, w);
    GraphLeftIsStep(ReviewedPromotion(s, c, setting, w).1, s.Graph(), p);
  }

  lemma ReviewedAwayDone(s: RuntimeState, p: Promotion, c: CandidateRecord, deferred: bool, setting: Setting)
    ensures var (t, outcome) := ReviewedAway(s, c, deferred);
            && outcome == RefusalEnd(deferred, true, Returns(s.bus, Told(RefusalEvent(deferred), c.candidateId)))
            && ReviewDone(s, t, outcome, p, c, setting)
  {
  }

  // ------------------------------------------------------------ as sessions

  /** What a call of `commit_graph` ends with is a step of a session. */
  lemma CommitIsSession(
    s: RuntimeState, candidateId: string, p: Promotion, ready: bool, approved: bool, setting: Setting, w: Surroundings)
    requires p.active == s.active && SandboxGate in w.gates
    ensures var admitted := Admissible(p, ready, approved, w.reviewer, w.gates);
            var deferred := Deferrable(p, ready, approved, w.reviewer, w.gates);
            var outcome := CallEnd(s, candidateId, p.candidate, admitted, deferred, setting, w);
            Session(p.cat, s.Graph(), s.Stuck(), [Attempt(p, outcome, w.reviewer, w.gates)])
  {
    StuckMeansRefused(s);
  }

  /** So is what a late review ends with. */
  lemma ReviewIsSession(s: RuntimeState, p: Promotion, c: CandidateRecord, setting: Setting, w: Surroundings)
    requires p.active == s.active && SandboxGate in w.gates
    ensures Session(p.cat, s.Graph(), s.Stuck(), [Attempt(p, ReviewEnd(s, p, c, setting, w), w.reviewer, w.gates)])
  {
    StuckMeansRefused(s);
  }

  /**
   * A subscriber that raises during the event replay leaves nothing behind: the call raises with the graph
   * cut over, and the next drain opens as if nothing had happened.
   */
  lemma RaisingSubscriberBlocksNothing(
    s: RuntimeState, candidateId: string, g: GraphSnapshot, report: Option<ValidationReport>, setting: Setting,
    w: Surroundings)
    requires Quiet(w) && DrainedCutover(s, candidateId, g, report, setting, w).1 == EventsFailed
    ensures var t := DrainedCutover(s, candidateId, g, report, setting, w).0;
            t.Graph() == CutOver(s.Graph(), g) && !t.Stuck() && t.Opening() == Begun
  {
    CutoverMeans(s, candidateId, g, report, setting, w);
    LoadedKeepsInflight(s.Traffic(), candidateId, g, setting.policy, w);
  }

  lemma LoadedKeepsInflight(s: System, candidateId: string, g: GraphSnapshot, policy: DrainPolicy, w: Surroundings)
    ensures Loaded(s, candidateId, g, policy, w).0.engine.inflight == s.engine.inflight
  {
    TrafficKeepsDrains(Opened(s, EpochId(candidateId, g), policy), DuringDrain(g, w));
  }

  /**
   * A replayed emission that raises leaves the event drain active: the next drain fails on it, and leaves an epoch
   * and a route drain open as well.
   */
  lemma RaisingReplayBlocksNext(
    s: RuntimeState, candidateId: string, g: GraphSnapshot, report: Option<ValidationReport>, setting: Setting,
    w: Surroundings, nextId: string, next: GraphSnapshot, nextReport: Option<ValidationReport>, v: Surroundings)
    requires Quiet(w) && DrainedCutover(s, candidateId, g, report, setting, w).1 == ReplayFailed
    ensures var t := DrainedCutover(s, candidateId, g, report, setting, w).0;
            var (u, cutover) := DrainedCutover(t, nextId, next, nextReport, setting, v);
            && cutover == DrainRefused(EventDrainActive)
            && u.epochOpen && u.engine.epoch.Some? && u.bus.epoch.Some? && u.Graph() == t.Graph()
  {
    LoadedLeaves(s.Traffic(), candidateId, g, setting.policy, w);
  }

  // -------------------------------------------------------- honest records

  /** Every record `commit_graph` adds is honest. */
  lemma CommitKeepsHonest(
    p: Promotion, candidates: seq<CandidateRecord>, candidateId: string, s: RuntimeState, judged: ValidationReport,
    ready: bool, approved: bool, setting: Setting, w: Surroundings)
    requires AllHonest(p.cat, candidates) && FairReport(judged, p, ready, approved, w)
    ensures var admitted := Admissible(p, ready, approved, w.reviewer, w.gates);
            var deferred := Deferrable(p, ready, approved, w.reviewer, w.gates);
            var outcome := CallEnd(s, candidateId, p.candidate, admitted, deferred, setting, w);
            AllHonest(p.cat, candidates + RecordOf(outcome, candidateId, p.candidate, judged))
  {
  }

  /** A review keeps records honest, and what it promotes with the sandbox among the gates needs no force. */
  lemma ReviewKeepsHonest(
    s: RuntimeState, p: Promotion, c: CandidateRecord, setting: Setting, w: Surroundings)
    requires AllHonest(p.cat, s.candidates) && c in s.candidates && c.deferred
    requires p.candidate == c.snapshot && p.authorized == {}
    ensures var outcome := ReviewEnd(s, p, c, setting, w);
            && AllHonest(p.cat, RecordsReviewed(outcome, s.candidates, c))
            && (CutsOver(outcome) && SandboxGate in w.gates ==> c.report == ValidationReport(true, []))
  {
    var outcome := ReviewEnd(s, p, c, setting, w);
    assert Honest(p.cat, c);
    if TurnedDown(outcome) {
      UpdatedHonest(p.cat, s.candidates, c.(promoted := false, deferred := outcome.deferred));
    } else if GoneThrough(outcome) {
      UpdatedHonest(p.cat, s.candidates, Adopted(c));
    }
    if CutsOver(outcome) && SandboxGate in w.gates {
      assert GateAllows(SandboxGate, p);
      AdoptedWithoutForce(p.cat, p.active, c);
    }
  }
}
