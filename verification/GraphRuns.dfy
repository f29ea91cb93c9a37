/** Properties of every run of promotions, roll-backs and retirements of the graph. */
module GraphRuns {
  import opened Ids
  import opened Digraph
  import opened Models
  import opened GraphShape
  import opened GraphVersions
  import opened VersionRuns
  import opened PortIndex
  import opened Routing
  import opened SafetyPipeline

  /** The parts that say which graph is in force. */
  datatype GraphState = GraphState(store: StoreState, active: Option<GraphSnapshot>, table: RouteTable)

  datatype GraphOp =
    | Promote(candidate: GraphSnapshot, authorized: set<string>, healthy: bool)
    | RollBackGraph
    | RetireGraphs(keep: int)
    | LeaveGraph

  // --------------------------------------------------------- what steps do

  ghost function CutOver(s: GraphState, g: GraphSnapshot): GraphState {
    GraphState(Committed(s.store, g), Some(g), Compiled(g.edges))
  }

  function Reverted(s: GraphState): GraphState {
    if CanRollBack(s.store) then
      var g := RollbackSnapshot(s.store);
      GraphState(RolledBack(s.store), Some(g), Compiled(g.edges))
    else s
  }

  /** A promotion whose health check fails is reverted at once. */
  ghost function GraphStep(s: GraphState, op: GraphOp): GraphState {
    match op
    case Promote(g, _, healthy) => if healthy then CutOver(s, g) else Reverted(CutOver(s, g))
    case RollBackGraph => Reverted(s)
    case RetireGraphs(keep) => s.(store := RetiredTo(s.store, keep))
    case LeaveGraph => s
  }

  ghost function GraphRun(s: GraphState, ops: seq<GraphOp>): GraphState
    decreases |ops|
  {
    if ops == [] then s else GraphRun(GraphStep(s, ops[0]), ops[1..])
  }

  /** Each promoted candidate passed the sandbox when it was promoted; its number may have been used before. */
  ghost predicate Admitted(cat: Catalogue, s: GraphState, ops: seq<GraphOp>)
    decreases |ops|
  {
    ops == [] ||
    (&& (ops[0].Promote? ==> Passes(cat, s.active, ops[0].candidate, ops[0].authorized))
     && Admitted(cat, GraphStep(s, ops[0]), ops[1..]))
  }

  predicate Unapproved(ops: seq<GraphOp>) {
    forall op :: op in ops && op.Promote? ==> op.authorized == {}
  }

  // ------------------------------------------------------------- invariants

  function ActiveOf(s: StoreState): Option<GraphSnapshot> {
    if s.active.Some? && s.active.value in s.live then Some(s.live[s.active.value]) else None
  }

  /** Store, registry and route table speak of the same graph. */
  ghost predicate InPlace(s: GraphState) {
    && Consistent(s.store)
    && s.active == ActiveOf(s.store)
    && (s.active.None? <==> s.store.active.None?)
    && s.table == if s.active.Some? then Compiled(s.active.value.edges) else map[]
  }

  predicate Initial(s: GraphState) {
    Fresh(s.store) && s.active.None? && s.table == map[]
  }

  lemma ActiveInHistory(s: GraphState)
    requires InPlace(s) && s.active.Some?
    ensures s.store.active.value in History(s.store)
    ensures History(s.store)[s.store.active.value] == s.active.value
  {
  }

  lemma CutOverInPlace(s: GraphState, g: GraphSnapshot)
    requires InPlace(s)
    ensures InPlace(CutOver(s, g))
    ensures History(CutOver(s, g).store) == History(s.store)[g.graphVersion := g]
  {
    CommitConsistent(s.store, g);
    CommitWrites(s.store, g);
  }

  lemma RevertedInPlace(s: GraphState)
    requires InPlace(s)
    ensures InPlace(Reverted(s))
    ensures History(Reverted(s).store) == History(s.store)
  {
    RollBackConsistent(s.store);
    RollBackHistory(s.store);
  }

  lemma RetireInPlace(s: GraphState, keep: int)
    requires InPlace(s)
    ensures InPlace(s.(store := RetiredTo(s.store, keep)))
    ensures History(RetiredTo(s.store, keep)) == History(s.store)
  {
    RetireToConsistent(s.store, keep);
    RetireToHistory(s.store, keep);
    RetiredKeeps(Windowed(s.store, keep));
    if s.active.Some? {
      RetiredKeepsActive(Windowed(s.store, keep));
    }
  }

  lemma {:induction false} RetiredKeepsActive(s: StoreState)
    requires s.active.Some? && s.active.value in s.live
    ensures s.active.value in Retired(s).live && Retired(s).live[s.active.value] == s.live[s.active.value]
    decreases |s.live|
  {
    if !MustRetire(s) {
    } else {
      var v := Lowest(s.live.Keys - ActiveVersions(s));
      Archived1(s, v);
      RetiredKeepsActive(Archive(s, v));
    }
  }

  lemma StepInPlace(s: GraphState, op: GraphOp)
    requires InPlace(s)
    ensures InPlace(GraphStep(s, op))
    ensures History(GraphStep(s, op).store)
            == if op.Promote? then History(s.store)[op.candidate.graphVersion := op.candidate] else History(s.store)
  {
    match op
    case Promote(g, _, healthy) =>
      CutOverInPlace(s, g);
      RevertedInPlace(CutOver(s, g));
    case RollBackGraph => RevertedInPlace(s);
    case RetireGraphs(keep) => RetireInPlace(s, keep);
    case LeaveGraph =>
  }

  /**
   * In every reachable state the compiled route table answers every lookup
   * like a direct scan of the connections of the active graph.
   */
  lemma {:induction false} RoutingRefinesActiveGraph(s: GraphState, ops: seq<GraphOp>, source: string)
    requires InPlace(s)
    ensures var t := GraphRun(s, ops);
            InPlace(t) && Lookup(t.table, source) == if t.active.Some? then Scan(t.active.value.edges, source) else []
    decreases |ops|
  {
    if ops != [] {
      StepInPlace(s, ops[0]);
      RoutingRefinesActiveGraph(GraphStep(s, ops[0]), ops[1..], source);
    } else if s.active.Some? {
      LookupIsScan(s.active.value.edges, source);
    }
  }

  // ------------------------------------------------ only graphs in shape

  ghost predicate AllShaped(cat: Catalogue, history: map<int, GraphSnapshot>) {
    forall v :: v in history ==> Structural(cat, history[v])
  }

  ghost predicate AllStructural(cat: Catalogue, s: GraphState) {
    AllShaped(cat, History(s.store))
  }

  lemma ActiveStructural(cat: Catalogue, s: GraphState)
    requires InPlace(s) && AllStructural(cat, s) && s.active.Some?
    ensures Structural(cat, s.active.value)
  {
    ActiveInHistory(s);
    var h, v := History(s.store), s.store.active.value;
    assert v in h && Structural(cat, h[v]);
  }

  lemma StepStructural(cat: Catalogue, s: GraphState, op: GraphOp)
    requires InPlace(s) && AllStructural(cat, s)
    requires op.Promote? ==> Passes(cat, s.active, op.candidate, op.authorized)
    ensures AllStructural(cat, GraphStep(s, op))
  {
    StepInPlace(s, op);
    if op.Promote? {
      PassesIsStructural(cat, s.active, op.candidate, op.authorized);
    }
  }

  /**
   * Whatever is approved or reviewed late, every graph ever active (and every
   * graph that could be rolled back to) is acyclic, closed, port-correct and
   * has its required inputs bound.
   */
  lemma {:induction false} OnlyGraphsInShape(cat: Catalogue, s: GraphState, ops: seq<GraphOp>)
    requires InPlace(s) && AllStructural(cat, s) && Admitted(cat, s, ops)
    ensures var t := GraphRun(s, ops);
            && InPlace(t) && AllStructural(cat, t)
            && (t.active.Some? ==> Structural(cat, t.active.value))
    decreases |ops|
  {
    if ops != [] {
      StepInPlace(s, ops[0]);
      StepStructural(cat, s, ops[0]);
      OnlyGraphsInShape(cat, GraphStep(s, ops[0]), ops[1..]);
    } else if s.active.Some? {
      ActiveStructural(cat, s);
    }
  }

  // ------------------------------------------------------- the public table

  /** In a graph in shape, over components with non-empty ids, every connection has a dotted source. */
  lemma ShapedIsDotted(cat: Catalogue, g: GraphSnapshot)
    requires Structural(cat, g) && "" !in cat.components
    ensures forall e :: e in g.edges ==> Dotted(e.source)
  {
    forall e | e in g.edges ensures Dotted(e.source) {
      assert EndpointsIn(NodeIds(g.nodes), e);
    }
  }

  /**
   * In every reachable state, when no component has an empty id, the public table of the active graph gives
   * the routes of the engine's for every source, in the same order.
   */
  lemma PublicTableAgrees(cat: Catalogue, s: GraphState, ops: seq<GraphOp>, public: Filed)
    requires InPlace(s) && AllStructural(cat, s) && Admitted(cat, s, ops) && "" !in cat.components
    requires var t := GraphRun(s, ops); t.active.Some? && FilesFrom(public, t.active.value.edges)
    ensures forall source ::
              SameRoutes(FiledUnder(public, source), Lookup(GraphRun(s, ops).table, source))
  {
    var t := GraphRun(s, ops);
    OnlyGraphsInShape(cat, s, ops);
    ShapedIsDotted(cat, t.active.value);
    TablesAgreeExactly(t.active.value.edges, public);
  }

  // -------------------------------------------------- the protected boundary

  ghost predicate AllAround(history: map<int, GraphSnapshot>, c: Id, wires: set<Wire>) {
    forall v :: v in history ==> IncidentWires(history[v].edges, c) == wires
  }

  /** Every graph the store can still produce has the same wires around `c`. */
  ghost predicate Around(s: GraphState, c: Id, wires: set<Wire>) {
    AllAround(History(s.store), c, wires)
  }

  lemma ActiveAround(s: GraphState, c: Id, wires: set<Wire>)
    requires InPlace(s) && s.active.Some? && Around(s, c, wires)
    ensures IncidentWires(s.active.value.edges, c) == wires
  {
    ActiveInHistory(s);
    var h, v := History(s.store), s.store.active.value;
    assert v in h && IncidentWires(h[v].edges, c) == wires;
  }

  lemma StrangersHaveNoWires(nodes: set<Id>, edges: seq<ConnectionEdge>, c: Id)
    requires forall e :: e in edges ==> EndpointsIn(nodes, e)
    requires c !in nodes
    ensures IncidentWires(edges, c) == {}
  {
  }

  /** One admitted promotion leaves a manifest-protected component wired as it was. */
  lemma PromotionKeepsBoundary(cat: Catalogue, active: GraphSnapshot, g: GraphSnapshot, c: Id)
    requires cat.IsProtected(c) && Structural(cat, active) && WellFormed(cat, Some(active), g)
    ensures IncidentWires(g.edges, c) == IncidentWires(active.edges, c)
    ensures c in NodeIds(active.nodes) ==> c in NodeIds(g.nodes)
  {
    if c in NodeIds(active.nodes) + NodeIds(g.nodes) {
      BoundaryOf(cat, active, g, c);
      KeptMeansSameWires(cat, active, g, c);
    } else {
      NoWiresOutside(cat, active, c);
      NoWiresOutside(cat, g, c);
    }
  }

  lemma BoundaryOf(cat: Catalogue, active: GraphSnapshot, g: GraphSnapshot, c: Id)
    requires WellFormed(cat, Some(active), g) && c in NodeIds(active.nodes) + NodeIds(g.nodes)
    ensures BoundaryKept(cat, active, g, c)
  {
    assert BoundariesKept(cat, Some(active), g);
  }

  lemma KeptMeansSameWires(cat: Catalogue, active: GraphSnapshot, g: GraphSnapshot, c: Id)
    requires cat.IsProtected(c) && BoundaryKept(cat, active, g, c)
    ensures IncidentWires(g.edges, c) == IncidentWires(active.edges, c)
    ensures c in NodeIds(active.nodes) ==> c in NodeIds(g.nodes)
  {
  }

  lemma NoWiresOutside(cat: Catalogue, g: GraphSnapshot, c: Id)
    requires Structural(cat, g) && c !in NodeIds(g.nodes)
    ensures IncidentWires(g.edges, c) == {}
  {
    StrangersHaveNoWires(NodeIds(g.nodes), g.edges, c);
  }

  /**
   * Policies are outside that protection: without any approval, a graph that changes nothing but
   * policies, at protected components too, replaces the active one.
   */
  lemma PolicyChangePromotes(cat: Catalogue, s: GraphState, h: GraphSnapshot)
    requires InPlace(s) && s.active.Some? && Structural(cat, s.active.value) && SlotsExclusive(cat, s.active.value)
    requires SameWires(s.active.value, h)
    ensures Admitted(cat, s, [Promote(h, {}, true)]) && Unapproved([Promote(h, {}, true)])
    ensures GraphRun(s, [Promote(h, {}, true)]).active == Some(h)
  {
    var g := s.active.value;
    ReplacesItself(cat, g);
    PolicyIsNeverChecked(cat, Some(g), g, h);
    PassesUnauthorized(cat, Some(g), h);
    assert [Promote(h, {}, true)][1..] == [];
  }

  lemma ReplacesItself(cat: Catalogue, g: GraphSnapshot)
    requires Structural(cat, g) && SlotsExclusive(cat, g)
    ensures WellFormed(cat, Some(g), g)
  {
  }

  /** One connection from `a` into the protected component `b`: its policy goes from required to optional unseen. */
  lemma RequiredMadeOptional(a: Id, b: Id, out: string, into: string)
    returns (cat: Catalogue, g: GraphSnapshot, h: GraphSnapshot)
    requires a != b && out != "" && into != "" && '.' !in out && '.' !in into
    ensures cat.IsProtected(b) && Passes(cat, None, g, {}) && Passes(cat, Some(g), h, {})
    ensures |g.edges| == 1 && |h.edges| == 1 && Touches(b, g.edges[0])
    ensures g.edges[0].policy == RequiredPolicy && h.edges == [g.edges[0].(policy := OptionalPolicy)]
  {
    cat := Catalogue(map[a := Source(out), b := Sink(into)], map[]);
    SplitJoin(a, out);
    SplitJoin(b, into);
    var e := ConnectionEdge("c", Join(a, out), Join(b, into), "text", SyncMode, RequiredPolicy);
    g := GraphSnapshot(1, [ComponentNode(a, "source", false), ComponentNode(b, "sink", true)], [e]);
    h := GraphSnapshot(2, g.nodes, [e.(policy := OptionalPolicy)]);
    OneWireStructural(cat, g, a, b, out, into);
    UnseenChange(cat, g, h);
  }

  function Source(out: string): RegisteredComponent {
    RegisteredComponent([], [OutputPort(out, "text")], [], [], false)
  }

  function Sink(into: string): RegisteredComponent {
    RegisteredComponent([InputPort(into, "text", true)], [], [], [], true)
  }

  /** With no slot bound to anything, a graph in shape passes, and so does the same graph with other policies. */
  lemma UnseenChange(cat: Catalogue, g: GraphSnapshot, h: GraphSnapshot)
    requires Structural(cat, g) && cat.slotBindings == map[] && SameWires(g, h)
    ensures Passes(cat, None, g, {}) && Passes(cat, Some(g), h, {})
  {
    ReplacesItself(cat, g);
    PolicyIsNeverChecked(cat, Some(g), g, h);
    PassesUnauthorized(cat, None, g);
    PassesUnauthorized(cat, Some(g), h);
  }

  /** A source and a sink with one connection between them make a graph in shape. */
  lemma OneWireStructural(cat: Catalogue, g: GraphSnapshot, a: Id, b: Id, out: string, into: string)
    requires a != b && cat.components == map[a := Source(out), b := Sink(into)]
    requires OneWire(g, a, b, out, into) && g.edges[0].payload == "text"
    ensures Structural(cat, g)
  {
    OneWireEdges(g, a, b, out, into);
    OneEdgeAcyclic(a, b);
    EdgeDeclared(cat, g.edges[0], a, b, out, into);
    AllLikeTheFirst(cat, {a, b}, g.edges);
    AllBound(cat, g, a, b, out, into);
    NoneOrphan(cat, g, a, b, out, into);
  }

  predicate OneWire(g: GraphSnapshot, a: Id, b: Id, out: string, into: string) {
    && |g.nodes| == 2 && g.nodes[0].componentId == a && g.nodes[1].componentId == b
    && |g.edges| == 1
    && ComponentOf(g.edges[0].source) == a && PortOf(g.edges[0].source) == out
    && ComponentOf(g.edges[0].target) == b && PortOf(g.edges[0].target) == into
  }

  lemma OneWireEdges(g: GraphSnapshot, a: Id, b: Id, out: string, into: string)
    requires OneWire(g, a, b, out, into)
    ensures NodeIds(g.nodes) == {a, b} && Adjacency({a, b}, g.edges) == {(a, b)}
  {
    assert g.edges == [g.edges[0]] && g.nodes == [g.nodes[0], g.nodes[1]];
    assert g.edges[0] in g.edges && g.nodes[0] in g.nodes && g.nodes[1] in g.nodes;
  }

  lemma EdgeDeclared(cat: Catalogue, e: ConnectionEdge, a: Id, b: Id, out: string, into: string)
    requires cat.components == map[a := Source(out), b := Sink(into)] && a != b && e.payload == "text"
    requires ComponentOf(e.source) == a && PortOf(e.source) == out
    requires ComponentOf(e.target) == b && PortOf(e.target) == into
    ensures OutputDeclared(cat, e) && InputMatches(cat, e)
  {
    assert Source(out).outputs[0] in Source(out).outputs;
    OneInput(InputPort(into, "text", true));
  }

  lemma AllLikeTheFirst(cat: Catalogue, ids: set<Id>, edges: seq<ConnectionEdge>)
    requires |edges| == 1
    requires EndpointsIn(ids, edges[0]) && OutputDeclared(cat, edges[0]) && InputMatches(cat, edges[0])
    ensures forall e :: e in edges ==> EndpointsIn(ids, e) && OutputDeclared(cat, e) && InputMatches(cat, e)
  {
    assert forall e :: e in edges ==> e == edges[0];
  }

  lemma OneInput(p: InputPort)
    ensures InputNamed([p], p.name) == Some(p)
  {
  }

  lemma AllBound(cat: Catalogue, g: GraphSnapshot, a: Id, b: Id, out: string, into: string)
    requires cat.components == map[a := Source(out), b := Sink(into)] && a != b
    requires OneWire(g, a, b, out, into)
    ensures forall c :: c in NodeIds(g.nodes) ==> InputsBound(cat, g, c)
  {
    OneWireEdges(g, a, b, out, into);
    assert g.edges[0] in g.edges && EndpointsIn({a, b}, g.edges[0]);
    assert RequiredNames(Source(out)) == {};
    assert RequiredNames(Sink(into)) <= {into};
    assert into in BoundInputs({a, b}, g.edges, b);
    assert InputsBound(cat, g, a) && InputsBound(cat, g, b);
  }

  lemma NoneOrphan(cat: Catalogue, g: GraphSnapshot, a: Id, b: Id, out: string, into: string)
    requires OneWire(g, a, b, out, into)
    ensures forall n :: n in g.nodes ==> !Orphan(cat, g, n)
  {
    assert g.edges[0] in g.edges;
    assert g.nodes == [g.nodes[0], g.nodes[1]];
  }

  lemma OneEdgeAcyclic(a: Id, b: Id)
    requires a != b
    ensures Acyclic({(a, b)})
  {
    var E: Edges := {(a, b)};
    forall c ensures !OnCycle(E, c) {
      if OnCycle(E, c) {
        var d := FirstEdge(E, c, c);
        var f := LastEdge(E, c, c);
        assert false;
      }
    }
  }

  lemma StepKeepsBoundary(cat: Catalogue, s: GraphState, op: GraphOp, c: Id, wires: set<Wire>)
    requires InPlace(s) && s.active.Some? && AllStructural(cat, s)
    requires cat.IsProtected(c) && Around(s, c, wires)
    requires op.Promote? ==> op.authorized == {} && Passes(cat, s.active, op.candidate, {})
    ensures Around(GraphStep(s, op), c, wires) && GraphStep(s, op).active.Some?
  {
    StepInPlace(s, op);
    ActiveAround(s, c, wires);
    ActiveStructural(cat, s);
    if op.Promote? {
      PassesUnauthorized(cat, s.active, op.candidate);
      PromotionKeepsBoundary(cat, s.active.value, op.candidate, c);
    }
  }

  /** Once a graph is active, unapproved runs never change the wires of a manifest-protected component. */
  lemma {:induction false} BoundaryNeverMoves(cat: Catalogue, s: GraphState, ops: seq<GraphOp>, c: Id, wires: set<Wire>)
    requires InPlace(s) && s.active.Some? && AllStructural(cat, s)
    requires cat.IsProtected(c) && Around(s, c, wires)
    requires Admitted(cat, s, ops) && Unapproved(ops)
    ensures var t := GraphRun(s, ops);
            t.active.Some? && IncidentWires(t.active.value.edges, c) == wires && Around(t, c, wires)
    decreases |ops|
  {
    if ops == [] {
      ActiveAround(s, c, wires);
    } else {
      assert ops[0] in ops && forall op :: op in ops[1..] ==> op in ops;
      StepInPlace(s, ops[0]);
      StepStructural(cat, s, ops[0]);
      StepKeepsBoundary(cat, s, ops[0], c, wires);
      BoundaryNeverMoves(cat, GraphStep(s, ops[0]), ops[1..], c, wires);
    }
  }

  /** From the first commit on: all graphs of an unapproved run that are ever active agree around `c`. */
  lemma BoundaryFixedByFirstCommit(cat: Catalogue, s: GraphState, g: GraphSnapshot, ops: seq<GraphOp>, c: Id)
    requires Initial(s) && Passes(cat, None, g, {}) && cat.IsProtected(c)
    requires Admitted(cat, CutOver(s, g), ops) && Unapproved(ops)
    ensures var t := GraphRun(CutOver(s, g), ops);
            t.active.Some? && IncidentWires(t.active.value.edges, c) == IncidentWires(g.edges, c)
  {
    FreshIsConsistent(s.store);
    CutOverInPlace(s, g);
    PassesIsStructural(cat, None, g, {});
    BoundaryNeverMoves(cat, CutOver(s, g), ops, c, IncidentWires(g.edges, c));
  }

  // ---------------------------------------------------- commit and roll back

  /**
   * Rolling back right after a promotion restores the active version, its
   * snapshot, the route table and the registry's active graph, provided the
   * promotion did not overwrite that very version. Nothing is lost, but the
   * list of archived versions keeps what the promotion archived, the version
   * just restored included.
   */
  lemma PromoteThenRevert(s: GraphState, g: GraphSnapshot)
    requires InPlace(s) && s.active.Some?
    requires g.graphVersion != s.store.active.value
    ensures var t := Reverted(CutOver(s, g));
            && t.active == s.active && t.table == s.table
            && t.store.active == s.store.active
            && t.store.live[s.store.active.value] == s.active.value
            && t.store.rollback.None?
            && History(t.store) == History(s.store)[g.graphVersion := g]
            && s.store.archivedVersions <= t.store.archivedVersions
            && (s.store.active.value !in Committed(s.store, g).live && ArchiveLogged(s.store) ==>
                  s.store.active.value in t.store.archivedVersions)
  {
    CommitThenRollback(s.store, g);
    LogKeepsRestored(s.store, g);
  }

  lemma LogKeepsRestored(s: StoreState, g: GraphSnapshot)
    requires Consistent(s) && s.active.Some?
    ensures s.archivedVersions <= RolledBack(Committed(s, g)).archivedVersions
    ensures ArchiveLogged(s) && s.active.value !in Committed(s, g).live ==>
              s.active.value in RolledBack(Committed(s, g)).archivedVersions
  {
    var t := Committed(s, g);
    RetiredLogGrows(Promoted(s, g));
    RollBackKeepsLog(t);
    CommitThenRollback(s, g);
    RollbackTargetKept(s, g);
    if ArchiveLogged(s) {
      CommitLogged(s, g);
      ArchivedOrLive(t, s.active.value);
    }
  }

  lemma RollBackKeepsLog(s: StoreState)
    ensures RolledBack(s).archivedVersions == s.archivedVersions
  {
  }

  lemma ArchivedOrLive(s: StoreState, v: int)
    requires ArchiveLogged(s) && v in Known(s)
    ensures v !in s.live ==> v in s.archivedVersions
  {
  }

  /** The list of archived versions only ever grows. */
  lemma {:induction false} RetiredLogGrows(s: StoreState)
    ensures s.archivedVersions <= Retired(s).archivedVersions
    decreases |s.live|
  {
    if !MustRetire(s) {
    } else {
      var v := Lowest(s.live.Keys - ActiveVersions(s));
      Archived1(s, v);
      RetiredLogGrows(Archive(s, v));
    }
  }

  /**
   * An unhealthy graph is documented to be rolled back. It stays active exactly when it was the first, or
   * overwrote the version it replaced.
   */
  lemma UnhealthyStaysExactly(s: GraphState, g: GraphSnapshot)
    requires InPlace(s)
    ensures Reverted(CutOver(s, g)).active == Some(g)
       <==> s.active.None? || g.graphVersion == s.store.active.value
  {
    if s.active.None? {
      FirstHasNoTarget(s, g);
    } else {
      var a := s.store.active.value;
      CommitThenRollback(s.store, g);
      ActiveInHistory(s);
      assert s.store.live[a].graphVersion == a;
      if g.graphVersion == a { OverwrittenComesBack(s, g); }
    }
  }

  lemma FirstHasNoTarget(s: GraphState, g: GraphSnapshot)
    requires InPlace(s) && s.active.None?
    ensures Reverted(CutOver(s, g)).active == Some(g)
  {
    RetiredKeeps(Promoted(s.store, g));
    CommitWrites(s.store, g);
  }

  lemma OverwrittenComesBack(s: GraphState, g: GraphSnapshot)
    requires InPlace(s) && s.active.Some? && g.graphVersion == s.store.active.value
    ensures CanRollBack(Committed(s.store, g)) && RollbackSnapshot(Committed(s.store, g)) == g
  {
    CommitWrites(s.store, g);
    CommitThenRollback(s.store, g);
    RollbackTargetKept(s.store, g);
    var t := Committed(s.store, g);
    assert RollbackSnapshot(t) == History(t)[g.graphVersion];
  }

  /**
   * Not only a first graph: `a` is deferred, `b` is committed under the same number, then `a` is reviewed
   * late. If it is unhealthy, the roll-back restores the version it has overwritten, which is `a` again.
   */
  lemma LateReviewStaysUnhealthy(s: GraphState, a: GraphSnapshot, b: GraphSnapshot)
    requires Initial(s) && IsNextVersion(Known(s.store), a.graphVersion)
    requires IsNextVersion(Known(s.store), b.graphVersion)
    ensures a.graphVersion == b.graphVersion
    ensures CutOver(s, b).active == Some(b) && Reverted(CutOver(CutOver(s, b), a)).active == Some(a)
  {
    FreshIsConsistent(s.store);
    CutOverInPlace(s, b);
    UnhealthyStaysExactly(CutOver(s, b), a);
  }

  /** With the number `next_version` hands out the proviso always holds. */
  lemma FreshPromotionReverts(s: GraphState, g: GraphSnapshot)
    requires InPlace(s) && s.active.Some? && IsNextVersion(Known(s.store), g.graphVersion)
    ensures var t := Reverted(CutOver(s, g));
            t.active == s.active && t.table == s.table && t.store.active == s.store.active
    ensures forall v :: v in History(s.store) ==>
              v in History(Reverted(CutOver(s, g)).store)
              && History(Reverted(CutOver(s, g)).store)[v] == History(s.store)[v]
  {
    assert s.store.active.value in Known(s.store);
    KnownIsHistory(s.store);
    PromoteThenRevert(s, g);
  }
}
