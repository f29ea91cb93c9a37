/** What a well-formed graph is, independently of how the validator looks for flaws. */
module GraphShape {
  import opened Ids
  import opened Digraph
  import opened Models

  function NodeIds(nodes: seq<ComponentNode>): set<Id> {
    set n | n in nodes :: n.componentId
  }

  predicate EndpointsIn(ids: set<Id>, e: ConnectionEdge) {
    ComponentOf(e.source) in ids && ComponentOf(e.target) in ids
  }

  function Adjacency(ids: set<Id>, edges: seq<ConnectionEdge>): Edges {
    set e | e in edges && EndpointsIn(ids, e) :: (ComponentOf(e.source), ComponentOf(e.target))
  }

  /** Input ports of `c` that some connection between nodes of the graph reaches. */
  function BoundInputs(ids: set<Id>, edges: seq<ConnectionEdge>, c: Id): set<string> {
    set e | e in edges && EndpointsIn(ids, e) && ComponentOf(e.target) == c :: PortOf(e.target)
  }

  function Referenced(edges: seq<ConnectionEdge>): set<Id> {
    (set e | e in edges :: ComponentOf(e.source)) + (set e | e in edges :: ComponentOf(e.target))
  }

  function OutputNames(r: RegisteredComponent): set<string> {
    set p | p in r.outputs :: p.name
  }

  function RequiredNames(r: RegisteredComponent): set<string> {
    set p | p in r.inputs && p.required :: p.name
  }

  /** The declaration a name stands for: the last one, as in a dictionary built from the list. */
  function InputNamed(inputs: seq<InputPort>, name: string): (r: Option<InputPort>)
    ensures r.Some? <==> exists p :: p in inputs && p.name == name
    ensures r.Some? ==> exists k :: LastNamed(inputs, name, k) && inputs[k] == r.value
  {
    if inputs == [] then None
    else
      var n := |inputs| - 1;
      assert inputs == inputs[..n] + [inputs[n]];
      if inputs[n].name == name then
        assert LastNamed(inputs, name, n);
        Some(inputs[n])
      else
        var r := InputNamed(inputs[..n], name);
        assert forall k :: LastNamed(inputs[..n], name, k) ==> LastNamed(inputs, name, k);
        r
  }

  predicate LastNamed(inputs: seq<InputPort>, name: string, k: int) {
    0 <= k < |inputs| && inputs[k].name == name && forall j :: k < j < |inputs| ==> inputs[j].name != name
  }

  // ------------------------------------------------------------- well-formed

  predicate DistinctConnections(edges: seq<ConnectionEdge>) {
    forall i, j :: 0 <= i < j < |edges| ==> edges[i].connectionId != edges[j].connectionId
  }

  predicate OutputDeclared(cat: Catalogue, e: ConnectionEdge) {
    ComponentOf(e.source) in cat.components && PortOf(e.source) != "" ==>
      PortOf(e.source) in OutputNames(cat.components[ComponentOf(e.source)])
  }

  predicate InputMatches(cat: Catalogue, e: ConnectionEdge) {
    ComponentOf(e.target) in cat.components && PortOf(e.target) != "" ==>
      var declared := InputNamed(cat.components[ComponentOf(e.target)].inputs, PortOf(e.target));
      declared.Some? && declared.value.payloadType == e.payload
  }

  predicate InputsBound(cat: Catalogue, g: GraphSnapshot, c: Id) {
    c in cat.components && c in NodeIds(g.nodes) ==>
      RequiredNames(cat.components[c]) <= BoundInputs(NodeIds(g.nodes), g.edges, c)
  }

  predicate Orphan(cat: Catalogue, g: GraphSnapshot, n: ComponentNode) {
    && |g.nodes| > 1
    && n.componentId !in Referenced(g.edges)
    && !(n.componentId in cat.components && cat.components[n.componentId].inputs == [])
  }

  /** Everything about a graph that does not depend on the graph it replaces. */
  ghost predicate Structural(cat: Catalogue, g: GraphSnapshot) {
    && DistinctConnections(g.edges)
    && NodeIds(g.nodes) <= cat.components.Keys
    && (forall e :: e in g.edges ==>
          EndpointsIn(NodeIds(g.nodes), e) && OutputDeclared(cat, e) && InputMatches(cat, e))
    && (forall c :: c in NodeIds(g.nodes) ==> InputsBound(cat, g, c))
    && Acyclic(Adjacency(NodeIds(g.nodes), g.edges))
    && (forall n :: n in g.nodes ==> !Orphan(cat, g, n))
  }

  // ------------------------------------------------------ protected boundary

  /** The protected flag of the first node of that id. */
  predicate NodeProtected(nodes: seq<ComponentNode>, c: Id)
    ensures NodeProtected(nodes, c) <==> exists k :: FirstOfId(nodes, c, k) && nodes[k].protected
  {
    if nodes == [] then false
    else if nodes[0].componentId == c then
      assert FirstOfId(nodes, c, 0);
      nodes[0].protected
    else
      assert forall k :: FirstOfId(nodes[1..], c, k) ==> FirstOfId(nodes, c, k + 1);
      assert forall k :: FirstOfId(nodes, c, k) ==> FirstOfId(nodes[1..], c, k - 1);
      NodeProtected(nodes[1..], c)
  }

  predicate FirstOfId(nodes: seq<ComponentNode>, c: Id, k: int) {
    0 <= k < |nodes| && nodes[k].componentId == c && forall j :: 0 <= j < k ==> nodes[j].componentId != c
  }

  predicate ProtectedIn(cat: Catalogue, g: GraphSnapshot, c: Id) {
    NodeProtected(g.nodes, c) || cat.IsProtected(c)
  }

  predicate Touches(c: Id, e: ConnectionEdge) {
    ComponentOf(e.source) == c || ComponentOf(e.target) == c
  }

  /** The identity of a connection for the boundary check: everything but its policy. */
  datatype Wire = Wire(connectionId: Id, source: string, target: string, payload: string, mode: RouteMode)

  function WireOf(e: ConnectionEdge): Wire {
    Wire(e.connectionId, e.source, e.target, e.payload, e.mode)
  }

  function IncidentWires(edges: seq<ConnectionEdge>, c: Id): set<Wire> {
    set e | e in edges && Touches(c, e) :: WireOf(e)
  }

  /** What the replacement of `active` by `g` must leave alone around component `c`. */
  predicate BoundaryKept(cat: Catalogue, active: GraphSnapshot, g: GraphSnapshot, c: Id) {
    ProtectedIn(cat, active, c) || ProtectedIn(cat, g, c) ==>
      if c in NodeIds(active.nodes) && c !in NodeIds(g.nodes) then false
      else IncidentWires(active.edges, c) == IncidentWires(g.edges, c)
  }

  ghost predicate BoundariesKept(cat: Catalogue, active: Option<GraphSnapshot>, g: GraphSnapshot) {
    active.Some? ==>
      forall c :: c in NodeIds(active.value.nodes) + NodeIds(g.nodes) ==> BoundaryKept(cat, active.value, g, c)
  }

  predicate SlotContested(cat: Catalogue, g: GraphSnapshot, c: Id, s: SlotIntent) {
    && c in cat.components && c in NodeIds(g.nodes)
    && (cat.IsProtected(c) || NodeProtected(g.nodes, c))
    && s in cat.components[c].slots && s.primary
    && s.slot in cat.slotBindings && |cat.slotBindings[s.slot]| > 1
  }

  ghost predicate SlotsExclusive(cat: Catalogue, g: GraphSnapshot) {
    forall c, s :: !SlotContested(cat, g, c, s)
  }

  ghost predicate WellFormed(cat: Catalogue, active: Option<GraphSnapshot>, g: GraphSnapshot) {
    Structural(cat, g) && SlotsExclusive(cat, g) && BoundariesKept(cat, active, g)
  }

  /** Every connection of `a` from or to c is one of `b`, but perhaps for its policy. */
  ghost predicate WiredAlike(a: seq<ConnectionEdge>, b: seq<ConnectionEdge>, c: Id) {
    forall e :: e in a && (ComponentOf(e.source) == c || ComponentOf(e.target) == c) ==>
      exists f :: f in b && f.(policy := e.policy) == e
  }

  lemma WiresTellAllButPolicy(e: ConnectionEdge, f: ConnectionEdge)
    ensures WireOf(e) == WireOf(f) <==> f.(policy := e.policy) == e
  {
  }

  lemma WiredAlikeExactly(a: seq<ConnectionEdge>, b: seq<ConnectionEdge>, c: Id)
    ensures IncidentWires(a, c) <= IncidentWires(b, c) <==> WiredAlike(a, b, c)
  {
    if IncidentWires(a, c) <= IncidentWires(b, c) {
      forall e | e in a && (ComponentOf(e.source) == c || ComponentOf(e.target) == c)
        ensures exists f :: f in b && f.(policy := e.policy) == e
      {
        assert WireOf(e) in IncidentWires(a, c);
        var f :| f in b && Touches(c, f) && WireOf(f) == WireOf(e);
        WiresTellAllButPolicy(e, f);
      }
    }
    if WiredAlike(a, b, c) {
      forall w | w in IncidentWires(a, c) ensures w in IncidentWires(b, c) {
        var e :| e in a && Touches(c, e) && WireOf(e) == w;
        var f :| f in b && f.(policy := e.policy) == e;
        WiresTellAllButPolicy(e, f);
      }
    }
  }

  /** The manifest, or the first node of that id in a graph, says that the component is protected. */
  ghost predicate MarkedProtected(cat: Catalogue, g: GraphSnapshot, c: Id) {
    || (c in cat.components && cat.components[c].protected)
    || exists k :: FirstOfId(g.nodes, c, k) && g.nodes[k].protected
  }

  /**
   * The boundary check, connection by connection: a component marked as protected in either graph stays
   * there, and both graphs connect it alike but for policies.
   */
  lemma BoundaryKeptExactly(cat: Catalogue, active: GraphSnapshot, g: GraphSnapshot, c: Id)
    ensures BoundaryKept(cat, active, g, c) <==>
              (MarkedProtected(cat, active, c) || MarkedProtected(cat, g, c) ==>
                 && (c in NodeIds(active.nodes) ==> c in NodeIds(g.nodes))
                 && WiredAlike(active.edges, g.edges, c) && WiredAlike(g.edges, active.edges, c))
  {
    ProtectedExactly(cat, active, c);
    ProtectedExactly(cat, g, c);
    SameWiresExactly(active.edges, g.edges, c);
  }

  lemma ProtectedExactly(cat: Catalogue, g: GraphSnapshot, c: Id)
    ensures ProtectedIn(cat, g, c) <==> MarkedProtected(cat, g, c)
  {
  }

  lemma SameWiresExactly(a: seq<ConnectionEdge>, b: seq<ConnectionEdge>, c: Id)
    ensures IncidentWires(a, c) == IncidentWires(b, c) <==> WiredAlike(a, b, c) && WiredAlike(b, a, c)
  {
    WiredAlikeExactly(a, b, c);
    WiredAlikeExactly(b, a, c);
  }

  // ------------------------------------------------ what the checks do not see

  /** Two graphs alike but for their version numbers and the policies of their connections. */
  predicate SameWires(g: GraphSnapshot, h: GraphSnapshot) {
    && g.nodes == h.nodes && |g.edges| == |h.edges|
    && forall i :: 0 <= i < |g.edges| ==> WireOf(g.edges[i]) == WireOf(h.edges[i])
  }

  lemma SameWireElsewhere(g: GraphSnapshot, h: GraphSnapshot, e: ConnectionEdge) returns (f: ConnectionEdge)
    requires SameWires(g, h) && e in g.edges
    ensures f in h.edges && WireOf(f) == WireOf(e)
  {
    var i :| 0 <= i < |g.edges| && g.edges[i] == e;
    f := h.edges[i];
  }

  lemma SameAdjacency(ids: set<Id>, g: GraphSnapshot, h: GraphSnapshot)
    requires SameWires(g, h)
    ensures Adjacency(ids, g.edges) <= Adjacency(ids, h.edges)
  {
    forall x, y | (x, y) in Adjacency(ids, g.edges) ensures (x, y) in Adjacency(ids, h.edges) {
      var e :| e in g.edges && EndpointsIn(ids, e) && (ComponentOf(e.source), ComponentOf(e.target)) == (x, y);
      var f := SameWireElsewhere(g, h, e);
    }
  }

  lemma SameBoundInputs(ids: set<Id>, g: GraphSnapshot, h: GraphSnapshot, c: Id)
    requires SameWires(g, h)
    ensures BoundInputs(ids, g.edges, c) <= BoundInputs(ids, h.edges, c)
  {
    forall p | p in BoundInputs(ids, g.edges, c) ensures p in BoundInputs(ids, h.edges, c) {
      var e :| e in g.edges && EndpointsIn(ids, e) && ComponentOf(e.target) == c && PortOf(e.target) == p;
      var f := SameWireElsewhere(g, h, e);
    }
  }

  lemma SameReferenced(g: GraphSnapshot, h: GraphSnapshot)
    requires SameWires(g, h)
    ensures Referenced(g.edges) <= Referenced(h.edges)
  {
    forall e | e in g.edges
      ensures ComponentOf(e.source) in Referenced(h.edges) && ComponentOf(e.target) in Referenced(h.edges)
    {
      var f := SameWireElsewhere(g, h, e);
    }
  }

  lemma SameIncidentWires(g: GraphSnapshot, h: GraphSnapshot, c: Id)
    requires SameWires(g, h)
    ensures IncidentWires(g.edges, c) <= IncidentWires(h.edges, c)
  {
    forall w | w in IncidentWires(g.edges, c) ensures w in IncidentWires(h.edges, c) {
      var e :| e in g.edges && Touches(c, e) && WireOf(e) == w;
      var f := SameWireElsewhere(g, h, e);
    }
  }

  lemma EdgesStayRight(cat: Catalogue, g: GraphSnapshot, h: GraphSnapshot, f: ConnectionEdge)
    requires SameWires(g, h) && f in h.edges
    requires forall e :: e in g.edges ==>
               EndpointsIn(NodeIds(g.nodes), e) && OutputDeclared(cat, e) && InputMatches(cat, e)
    ensures EndpointsIn(NodeIds(h.nodes), f) && OutputDeclared(cat, f) && InputMatches(cat, f)
  {
    var e := SameWireElsewhere(h, g, f);
    assert OutputDeclared(cat, e) && InputMatches(cat, e);
  }

  lemma ShapeIgnoresPolicy(cat: Catalogue, g: GraphSnapshot, h: GraphSnapshot)
    requires SameWires(g, h) && Structural(cat, g)
    ensures Structural(cat, h)
  {
    var ids := NodeIds(g.nodes);
    forall i, j | 0 <= i < j < |h.edges| ensures h.edges[i].connectionId != h.edges[j].connectionId {
      assert WireOf(g.edges[i]) == WireOf(h.edges[i]) && WireOf(g.edges[j]) == WireOf(h.edges[j]);
    }
    forall f | f in h.edges ensures EndpointsIn(ids, f) && OutputDeclared(cat, f) && InputMatches(cat, f) {
      EdgesStayRight(cat, g, h, f);
    }
    forall c | c in ids ensures InputsBound(cat, h, c) {
      assert InputsBound(cat, g, c);
      SameBoundInputs(ids, g, h, c);
    }
    SameAdjacency(ids, h, g);
    SameAdjacency(ids, g, h);
    assert Adjacency(ids, h.edges) == Adjacency(ids, g.edges);
    SameReferenced(g, h);
    assert forall n :: n in h.nodes && Orphan(cat, h, n) ==> Orphan(cat, g, n);
  }

  lemma BoundaryIgnoresPolicy(cat: Catalogue, active: Option<GraphSnapshot>, g: GraphSnapshot, h: GraphSnapshot)
    requires SameWires(g, h) && BoundariesKept(cat, active, g)
    ensures BoundariesKept(cat, active, h)
  {
    if active.Some? {
      forall c | c in NodeIds(active.value.nodes) + NodeIds(h.nodes)
        ensures BoundaryKept(cat, active.value, h, c)
      {
        assert BoundaryKept(cat, active.value, g, c);
        SameIncidentWires(g, h, c);
        SameIncidentWires(h, g, c);
      }
    }
  }

  /** No check looks at the policy of a connection: changing policies never changes the verdict. */
  lemma PolicyIsNeverChecked(cat: Catalogue, active: Option<GraphSnapshot>, g: GraphSnapshot, h: GraphSnapshot)
    requires SameWires(g, h)
    ensures WellFormed(cat, active, g) <==> WellFormed(cat, active, h)
  {
    if WellFormed(cat, active, g) { PolicyChangeKeepsForm(cat, active, g, h); }
    if WellFormed(cat, active, h) { PolicyChangeKeepsForm(cat, active, h, g); }
  }

  lemma PolicyChangeKeepsForm(cat: Catalogue, active: Option<GraphSnapshot>, g: GraphSnapshot, h: GraphSnapshot)
    requires SameWires(g, h) && WellFormed(cat, active, g)
    ensures WellFormed(cat, active, h)
  {
    ShapeIgnoresPolicy(cat, g, h);
    BoundaryIgnoresPolicy(cat, active, g, h);
    forall c, s ensures !SlotContested(cat, h, c, s) {
      assert !SlotContested(cat, g, c, s);
    }
  }
}
