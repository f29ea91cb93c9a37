/** `validate_graph`: the report lists exactly the flaws a graph has. */
module Validators {
  import opened Ids
  import opened Digraph
  import opened Models
  import opened GraphShape
  import opened CycleCheck

  // ---------------------------------------------------- when an issue is due

  function Plain(code: IssueCode, subject: string): ValidationIssue {
    ValidationIssue(code, subject, Semantic, false)
  }

  function Protecting(code: IssueCode, subject: string): ValidationIssue {
    ValidationIssue(code, subject, ProtectedComponent, true)
  }

  ghost predicate DuplicateDue(g: GraphSnapshot, i: ValidationIssue) {
    exists j, k :: 0 <= j < k < |g.edges| && g.edges[j].connectionId == g.edges[k].connectionId
                   && i == Plain(DuplicateConnection, g.edges[j].connectionId)
  }

  predicate NodeDue(cat: Catalogue, n: ComponentNode, i: ValidationIssue) {
    n.componentId !in cat.components && i == Plain(UnknownComponent, n.componentId)
  }

  predicate EndpointDue(ids: set<Id>, e: ConnectionEdge, i: ValidationIssue) {
    || (ComponentOf(e.source) !in ids && i == Plain(UnknownSourceComponent, e.source))
    || (ComponentOf(e.target) !in ids && i == Plain(UnknownTargetComponent, e.target))
  }

  predicate PortDue(cat: Catalogue, e: ConnectionEdge, i: ValidationIssue) {
    || (!OutputDeclared(cat, e) && i == Plain(UnknownOutputPort, e.source))
    || (ComponentOf(e.target) in cat.components && PortOf(e.target) != ""
        && match InputNamed(cat.components[ComponentOf(e.target)].inputs, PortOf(e.target))
           case None => i == Plain(UnknownInputPort, e.target)
           case Some(p) => p.payloadType != e.payload && i == Plain(PayloadMismatch, e.connectionId))
  }

  predicate EdgeDue(cat: Catalogue, ids: set<Id>, e: ConnectionEdge, i: ValidationIssue) {
    EndpointDue(ids, e, i) || PortDue(cat, e, i)
  }

  ghost predicate ComponentDue(cat: Catalogue, g: GraphSnapshot, c: Id, i: ValidationIssue) {
    && c in cat.components && c in NodeIds(g.nodes)
    && (|| (exists name :: name in RequiredNames(cat.components[c])
                           && name !in BoundInputs(NodeIds(g.nodes), g.edges, c)
                           && i == Plain(MissingRequiredInput, Join(c, name)))
        || (exists s :: SlotContested(cat, g, c, s) && i == Protecting(ProtectedSlotOverride, s.slot)))
  }

  predicate BoundaryDue(cat: Catalogue, active: GraphSnapshot, g: GraphSnapshot, c: Id, i: ValidationIssue) {
    && !BoundaryKept(cat, active, g, c)
    && i == Protecting(
              if c in NodeIds(active.nodes) && c !in NodeIds(g.nodes) then ProtectedComponentRemoved
              else ProtectedBoundaryViolation, c)
  }

  ghost predicate BoundaryIssue(cat: Catalogue, active: Option<GraphSnapshot>, g: GraphSnapshot, i: ValidationIssue) {
    active.Some? && AnyBoundaryDue(cat, active.value, g, NodeIds(active.value.nodes) + NodeIds(g.nodes), i)
  }

  predicate OrphanDue(cat: Catalogue, g: GraphSnapshot, n: ComponentNode, i: ValidationIssue) {
    Orphan(cat, g, n) && i == ValidationIssue(OrphanComponent, n.componentId, Semantic, true)
  }

  ghost predicate AnyNodeDue(cat: Catalogue, nodes: seq<ComponentNode>, i: ValidationIssue) {
    exists n :: n in nodes && NodeDue(cat, n, i)
  }

  ghost predicate AnyEdgeDue(cat: Catalogue, ids: set<Id>, edges: seq<ConnectionEdge>, i: ValidationIssue) {
    exists e :: e in edges && EdgeDue(cat, ids, e, i)
  }

  ghost predicate AnyComponentDue(cat: Catalogue, g: GraphSnapshot, among: set<Id>, i: ValidationIssue) {
    exists c :: c in among && ComponentDue(cat, g, c, i)
  }

  ghost predicate AnyBoundaryDue(
    cat: Catalogue, active: GraphSnapshot, g: GraphSnapshot, among: set<Id>, i: ValidationIssue)
  {
    exists c :: c in among && BoundaryDue(cat, active, g, c, i)
  }

  ghost predicate AnyOrphanDue(cat: Catalogue, g: GraphSnapshot, nodes: seq<ComponentNode>, i: ValidationIssue) {
    exists n :: n in nodes && OrphanDue(cat, g, n, i)
  }

  /** Every issue except the cycle, whose subject depends on the order of the search. */
  ghost predicate Due(cat: Catalogue, active: Option<GraphSnapshot>, g: GraphSnapshot, i: ValidationIssue) {
    || DuplicateDue(g, i)
    || AnyNodeDue(cat, g.nodes, i)
    || AnyEdgeDue(cat, NodeIds(g.nodes), g.edges, i)
    || AnyComponentDue(cat, g, cat.components.Keys, i)
    || BoundaryIssue(cat, active, g, i)
    || AnyOrphanDue(cat, g, g.nodes, i)
  }

  predicate CycleIssue(i: ValidationIssue) {
    i.code == CycleDetected && i.category == Semantic && i.blocksPromotion
  }

  /** The report is exact: no flaw is missed and none is invented. */
  ghost predicate ExactReport(
    cat: Catalogue, active: Option<GraphSnapshot>, g: GraphSnapshot, report: ValidationReport)
  {
    && (report.valid <==> report.issues == [])
    && (forall i :: i in report.issues && i.code != CycleDetected <==> Due(cat, active, g, i))
    && (forall i :: i in report.issues && i.code == CycleDetected ==> CycleIssue(i))
    && ((exists i :: i in report.issues && CycleIssue(i))
        <==> !Acyclic(Adjacency(NodeIds(g.nodes), g.edges)))
  }

  // -------------------------------------------------------- the main passes

  method CheckConnectionIds(g: GraphSnapshot) returns (issues: seq<ValidationIssue>)
    ensures forall i :: i in issues <==> DuplicateDue(g, i)
  {
    issues := [];
    var counted: set<Id> := {};
    var repeated: set<Id> := {};
    for k := 0 to |g.edges|
      invariant forall x :: x in counted <==> exists j :: 0 <= j < k && g.edges[j].connectionId == x
      invariant forall i :: i in issues <==>
        exists j, m :: 0 <= j < m < k && g.edges[j].connectionId == g.edges[m].connectionId
                       && i == Plain(DuplicateConnection, g.edges[j].connectionId)
      invariant forall i :: i in issues <==> i.subject in repeated && i == Plain(DuplicateConnection, i.subject)
    {
      var id := g.edges[k].connectionId;
      if id in counted && id !in repeated {
        issues := issues + [Plain(DuplicateConnection, id)];
        repeated := repeated + {id};
      }
      assert id in repeated ==> Plain(DuplicateConnection, id) in issues;
      counted := counted + {id};
    }
  }

  method CheckNodes(cat: Catalogue, g: GraphSnapshot) returns (issues: seq<ValidationIssue>)
    ensures forall i :: i in issues <==> AnyNodeDue(cat, g.nodes, i)
  {
    issues := [];
    for k := 0 to |g.nodes|
      invariant forall i :: i in issues <==> AnyNodeDue(cat, g.nodes[..k], i)
    {
      assert g.nodes[..k + 1] == g.nodes[..k] + [g.nodes[k]];
      forall i ensures AnyNodeDue(cat, g.nodes[..k + 1], i)
                       <==> AnyNodeDue(cat, g.nodes[..k], i) || NodeDue(cat, g.nodes[k], i)
      {
      }
      var found := if g.nodes[k].componentId !in cat.components
                   then [Plain(UnknownComponent, g.nodes[k].componentId)] else [];
      assert forall i :: i in found <==> NodeDue(cat, g.nodes[k], i);
      issues := issues + found;
    }
    assert g.nodes[..|g.nodes|] == g.nodes;
  }

  lemma OneMoreEdge(cat: Catalogue, ids: set<Id>, edges: seq<ConnectionEdge>, e: ConnectionEdge)
    ensures forall i :: AnyEdgeDue(cat, ids, edges + [e], i)
                <==> AnyEdgeDue(cat, ids, edges, i) || EdgeDue(cat, ids, e, i)
    ensures Adjacency(ids, edges + [e]) == Adjacency(ids, edges)
              + (if EndpointsIn(ids, e) then {(ComponentOf(e.source), ComponentOf(e.target))} else {})
    ensures forall c :: BoundInputs(ids, edges + [e], c) == BoundInputs(ids, edges, c)
              + (if EndpointsIn(ids, e) && ComponentOf(e.target) == c then {PortOf(e.target)} else {})
  {
    forall i ensures AnyEdgeDue(cat, ids, edges + [e], i)
      <==> AnyEdgeDue(cat, ids, edges, i) || EdgeDue(cat, ids, e, i) {
      assert e in edges + [e];
    }
  }

  method CheckEndpoints(ids: set<Id>, e: ConnectionEdge) returns (issues: seq<ValidationIssue>)
    ensures forall i :: i in issues <==> EndpointDue(ids, e, i)
  {
    issues := [];
    if ComponentOf(e.source) !in ids {
      issues := issues + [Plain(UnknownSourceComponent, e.source)];
    }
    if ComponentOf(e.target) !in ids {
      issues := issues + [Plain(UnknownTargetComponent, e.target)];
    }
  }

  method CheckPorts(cat: Catalogue, e: ConnectionEdge) returns (issues: seq<ValidationIssue>)
    ensures forall i :: i in issues <==> PortDue(cat, e, i)
  {
    var sourceIssues, targetIssues := [], [];
    var source, target := ComponentOf(e.source), ComponentOf(e.target);
    if source in cat.components && PortOf(e.source) != "" {
      if PortOf(e.source) !in OutputNames(cat.components[source]) {
        sourceIssues := [Plain(UnknownOutputPort, e.source)];
      }
    }
    assert forall i :: i in sourceIssues <==> !OutputDeclared(cat, e) && i == Plain(UnknownOutputPort, e.source);
    if target in cat.components && PortOf(e.target) != "" {
      var declared := InputNamed(cat.components[target].inputs, PortOf(e.target));
      if declared.None? {
        targetIssues := [Plain(UnknownInputPort, e.target)];
      } else if declared.value.payloadType != e.payload {
        targetIssues := [Plain(PayloadMismatch, e.connectionId)];
      }
    }
    issues := sourceIssues + targetIssues;
  }

  /** One pass over the connections fills the adjacency and incoming lists as it checks. */
  method CheckEdges(cat: Catalogue, g: GraphSnapshot, ids: set<Id>)
    returns (issues: seq<ValidationIssue>, adjacency: map<Id, seq<Id>>, incoming: map<Id, seq<string>>)
    ensures forall i :: i in issues <==> AnyEdgeDue(cat, ids, g.edges, i)
    ensures Lists(adjacency, Adjacency(ids, g.edges))
    ensures forall c, p :: Successor(incoming, c, p) <==> p in BoundInputs(ids, g.edges, c)
  {
    issues, adjacency, incoming := [], map[], map[];
    for k := 0 to |g.edges|
      invariant forall i :: i in issues <==> AnyEdgeDue(cat, ids, g.edges[..k], i)
      invariant Lists(adjacency, Adjacency(ids, g.edges[..k]))
      invariant forall c, p :: Successor(incoming, c, p) <==> p in BoundInputs(ids, g.edges[..k], c)
    {
      var e := g.edges[k];
      assert g.edges[..k + 1] == g.edges[..k] + [e];
      OneMoreEdge(cat, ids, g.edges[..k], e);
      if EndpointsIn(ids, e) {
        AppendedSuccessors(adjacency, ComponentOf(e.source), ComponentOf(e.target));
        AppendedSuccessors(incoming, ComponentOf(e.target), PortOf(e.target));
        adjacency := Appended(adjacency, ComponentOf(e.source), ComponentOf(e.target));
        incoming := Appended(incoming, ComponentOf(e.target), PortOf(e.target));
      }
      var dangling := CheckEndpoints(ids, e);
      var mismatched := CheckPorts(cat, e);
      issues := issues + dangling + mismatched;
    }
    assert g.edges[..|g.edges|] == g.edges;
  }

  method CheckComponent(cat: Catalogue, g: GraphSnapshot, incoming: map<Id, seq<string>>, c: Id)
    returns (issues: seq<ValidationIssue>)
    requires c in cat.components && c in NodeIds(g.nodes)
    requires forall d, p :: Successor(incoming, d, p) <==> p in BoundInputs(NodeIds(g.nodes), g.edges, d)
    ensures forall i :: i in issues <==> ComponentDue(cat, g, c, i)
  {
    issues := [];
    var registered := cat.components[c];
    var bound := if c in incoming then incoming[c] else [];
    var missing := RequiredNames(registered) - (set p | p in bound);
    assert forall p :: p in bound <==> Successor(incoming, c, p);
    var pending := missing;
    while pending != {}
      invariant pending <= missing
      invariant forall i :: i in issues <==>
        exists name :: name in missing - pending && i == Plain(MissingRequiredInput, Join(c, name))
      decreases pending
    {
      var name :| name in pending;
      pending := pending - {name};
      issues := issues + [Plain(MissingRequiredInput, Join(c, name))];
    }
    ghost var inputIssues := issues;
    if registered.protected || NodeProtected(g.nodes, c) {
      for k := 0 to |registered.slots|
        invariant forall i :: i in issues <==>
          i in inputIssues
          || exists s :: s in registered.slots[..k] && SlotContested(cat, g, c, s)
                         && i == Protecting(ProtectedSlotOverride, s.slot)
      {
        var s := registered.slots[k];
        assert registered.slots[..k + 1] == registered.slots[..k] + [s];
        if s.primary && s.slot in cat.slotBindings && |cat.slotBindings[s.slot]| > 1 {
          issues := issues + [Protecting(ProtectedSlotOverride, s.slot)];
        }
      }
      assert registered.slots[..|registered.slots|] == registered.slots;
    }
  }

  method CheckComponents(cat: Catalogue, g: GraphSnapshot, incoming: map<Id, seq<string>>)
    returns (issues: seq<ValidationIssue>)
    requires forall d, p :: Successor(incoming, d, p) <==> p in BoundInputs(NodeIds(g.nodes), g.edges, d)
    ensures forall i :: i in issues <==> AnyComponentDue(cat, g, cat.components.Keys, i)
  {
    issues := [];
    var pending := cat.components.Keys;
    ghost var done: set<Id> := {};
    while pending != {}
      invariant done + pending == cat.components.Keys
      invariant forall i :: i in issues <==> AnyComponentDue(cat, g, done, i)
      decreases pending
    {
      var c :| c in pending;
      pending := pending - {c};
      forall i ensures AnyComponentDue(cat, g, done + {c}, i)
        <==> AnyComponentDue(cat, g, done, i) || ComponentDue(cat, g, c, i) {
      }
      done := done + {c};
      if c in NodeIds(g.nodes) {
        var found := CheckComponent(cat, g, incoming, c);
        issues := issues + found;
      }
    }
  }

  /** `_protected_boundary_issues`. */
  method ProtectedBoundaryIssues(cat: Catalogue, active: Option<GraphSnapshot>, g: GraphSnapshot)
    returns (issues: seq<ValidationIssue>)
    ensures forall i :: i in issues <==> BoundaryIssue(cat, active, g, i)
  {
    issues := [];
    if active.None? {
      return;
    }
    var before := active.value;
    var activeNodes, candidateNodes := NodeIds(before.nodes), NodeIds(g.nodes);
    var everyNode := activeNodes + candidateNodes;
    var components := set c | c in everyNode && (ProtectedIn(cat, before, c) || ProtectedIn(cat, g, c));
    var pending := components;
    ghost var done: set<Id> := {};
    while pending != {}
      invariant done + pending == components
      invariant forall i :: i in issues <==> AnyBoundaryDue(cat, before, g, done, i)
      decreases pending
    {
      var c :| c in pending;
      pending := pending - {c};
      forall i ensures AnyBoundaryDue(cat, before, g, done + {c}, i)
                       <==> AnyBoundaryDue(cat, before, g, done, i) || BoundaryDue(cat, before, g, c, i)
      {
      }
      done := done + {c};
      if c in activeNodes && c !in candidateNodes {
        issues := issues + [Protecting(ProtectedComponentRemoved, c)];
      } else if IncidentWires(before.edges, c) != IncidentWires(g.edges, c) {
        issues := issues + [Protecting(ProtectedBoundaryViolation, c)];
      }
    }
    forall i ensures AnyBoundaryDue(cat, before, g, everyNode, i) <==> AnyBoundaryDue(cat, before, g, components, i) {
      assert forall c :: c in everyNode && BoundaryDue(cat, before, g, c, i) ==> c in components;
    }
  }

  method CheckOrphans(cat: Catalogue, g: GraphSnapshot) returns (issues: seq<ValidationIssue>)
    ensures forall i :: i in issues <==> AnyOrphanDue(cat, g, g.nodes, i)
  {
    issues := [];
    var referenced := Referenced(g.edges);
    if |g.nodes| > 1 {
      for k := 0 to |g.nodes|
        invariant forall i :: i in issues <==> AnyOrphanDue(cat, g, g.nodes[..k], i)
      {
        var id := g.nodes[k].componentId;
        assert g.nodes[..k + 1] == g.nodes[..k] + [g.nodes[k]];
        forall i ensures AnyOrphanDue(cat, g, g.nodes[..k + 1], i)
                         <==> AnyOrphanDue(cat, g, g.nodes[..k], i) || OrphanDue(cat, g, g.nodes[k], i)
        {
        }
        var found := [];
        if id !in referenced {
          if !(id in cat.components && cat.components[id].inputs == []) {
            found := [ValidationIssue(OrphanComponent, id, Semantic, true)];
          }
        }
        assert forall i :: i in found <==> OrphanDue(cat, g, g.nodes[k], i);
        issues := issues + found;
      }
      assert g.nodes[..|g.nodes|] == g.nodes;
    }
  }

  method ValidateGraph(g: GraphSnapshot, registry: ComponentRegistry) returns (report: ValidationReport)
    ensures ExactReport(registry.catalogue, registry.activeGraph, g, report)
    ensures report.valid <==> WellFormed(registry.catalogue, registry.activeGraph, g)
  {
    var cat, active := registry.catalogue, registry.activeGraph;
    var ids := NodeIds(g.nodes);
    var duplicates := CheckConnectionIds(g);
    var unknown := CheckNodes(cat, g);
    var edgeIssues, adjacency, incoming := CheckEdges(cat, g, ids);
    var componentIssues := CheckComponents(cat, g, incoming);
    var boundary := ProtectedBoundaryIssues(cat, active, g);
    ghost var E := Adjacency(ids, g.edges);
    var found, start := FindCycle(adjacency, ids, E);
    var cycles := if found then [ValidationIssue(CycleDetected, start, Semantic, true)] else [];
    var orphans := CheckOrphans(cat, g);
    var issues := duplicates + unknown + edgeIssues + componentIssues + boundary + cycles + orphans;
    report := ValidationReport(issues == [], issues);
    DueIsNotCycle(cat, active, g);
    assert found ==> cycles[0] in issues;
    ExactMeansWellFormed(cat, active, g, report);
  }

  lemma DueIsNotCycle(cat: Catalogue, active: Option<GraphSnapshot>, g: GraphSnapshot)
    ensures forall i :: Due(cat, active, g, i) ==> i.code != CycleDetected
  {
  }

  /** Which flaws block a promotion, and which of them an approval may waive. */
  lemma WhatBlocks(cat: Catalogue, active: Option<GraphSnapshot>, g: GraphSnapshot, i: ValidationIssue)
    requires Due(cat, active, g, i)
    ensures i.category == ProtectedComponent
       <==> i.code in {ProtectedSlotOverride, ProtectedComponentRemoved, ProtectedBoundaryViolation}
    ensures i.category in {ProtectedComponent, Semantic}
    ensures i.blocksPromotion <==> i.category == ProtectedComponent || i.code == OrphanComponent
  {
    if AnyEdgeDue(cat, NodeIds(g.nodes), g.edges, i) {
      var e :| e in g.edges && EdgeDue(cat, NodeIds(g.nodes), e, i);
      EdgeFlaw(cat, NodeIds(g.nodes), e, i);
    } else if AnyComponentDue(cat, g, cat.components.Keys, i) {
      var c :| c in cat.components && ComponentDue(cat, g, c, i);
      ComponentFlaw(cat, g, c, i);
    }
  }

  lemma EdgeFlaw(cat: Catalogue, ids: set<Id>, e: ConnectionEdge, i: ValidationIssue)
    requires EdgeDue(cat, ids, e, i)
    ensures i.category == Semantic && !i.blocksPromotion
    ensures i.code in {UnknownSourceComponent, UnknownTargetComponent, UnknownOutputPort, UnknownInputPort,
                       PayloadMismatch}
  {
    if EndpointDue(ids, e, i) {
      assert i == Plain(i.code, i.subject);
    } else {
      PortFlaw(cat, e, i);
    }
  }

  lemma PortFlaw(cat: Catalogue, e: ConnectionEdge, i: ValidationIssue)
    requires PortDue(cat, e, i)
    ensures i.category == Semantic && !i.blocksPromotion
    ensures i.code in {UnknownOutputPort, UnknownInputPort, PayloadMismatch}
  {
  }

  lemma ComponentFlaw(cat: Catalogue, g: GraphSnapshot, c: Id, i: ValidationIssue)
    requires ComponentDue(cat, g, c, i)
    ensures i.code in {MissingRequiredInput, ProtectedSlotOverride}
    ensures i.code == MissingRequiredInput ==> i.category == Semantic && !i.blocksPromotion
    ensures i.code == ProtectedSlotOverride ==> i.category == ProtectedComponent && i.blocksPromotion
  {
  }

  // ------------------------------------------------------------- meaning

  /** With no issue outside protection due, the graph has its shape. */
  lemma NoStructuralIssue(cat: Catalogue, active: Option<GraphSnapshot>, g: GraphSnapshot)
    requires forall i :: Due(cat, active, g, i) ==> i.category == ProtectedComponent
    requires Acyclic(Adjacency(NodeIds(g.nodes), g.edges))
    ensures Structural(cat, g)
  {
    forall j, k | 0 <= j < k < |g.edges| ensures g.edges[j].connectionId != g.edges[k].connectionId {
      var i := Plain(DuplicateConnection, g.edges[j].connectionId);
      assert DuplicateDue(g, i) ==> Due(cat, active, g, i);
    }
    forall n | n in g.nodes ensures n.componentId in cat.components && !Orphan(cat, g, n) {
      var i := Plain(UnknownComponent, n.componentId);
      assert NodeDue(cat, n, i) ==> Due(cat, active, g, i);
      var o := ValidationIssue(OrphanComponent, n.componentId, Semantic, true);
      assert OrphanDue(cat, g, n, o) ==> Due(cat, active, g, o);
    }
    forall e | e in g.edges
      ensures EndpointsIn(NodeIds(g.nodes), e) && OutputDeclared(cat, e) && InputMatches(cat, e)
    {
      NoEdgeIssue(cat, active, g, e);
    }
    forall c, name | c in NodeIds(g.nodes) && c in cat.components && name in RequiredNames(cat.components[c])
      ensures name in BoundInputs(NodeIds(g.nodes), g.edges, c)
    {
      var i := Plain(MissingRequiredInput, Join(c, name));
      assert ComponentDue(cat, g, c, i) ==> Due(cat, active, g, i);
    }
  }

  lemma NoEdgeIssue(cat: Catalogue, active: Option<GraphSnapshot>, g: GraphSnapshot, e: ConnectionEdge)
    requires forall i :: Due(cat, active, g, i) ==> i.category == ProtectedComponent
    requires e in g.edges
    ensures EndpointsIn(NodeIds(g.nodes), e) && OutputDeclared(cat, e) && InputMatches(cat, e)
  {
    var ids := NodeIds(g.nodes);
    forall i ensures !EdgeDue(cat, ids, e, i) {
      assert EdgeDue(cat, ids, e, i) ==> Due(cat, active, g, i);
    }
    assert !EdgeDue(cat, ids, e, Plain(UnknownSourceComponent, e.source));
    assert !EdgeDue(cat, ids, e, Plain(UnknownTargetComponent, e.target));
    assert !EdgeDue(cat, ids, e, Plain(UnknownOutputPort, e.source));
    assert !EdgeDue(cat, ids, e, Plain(UnknownInputPort, e.target));
    assert !EdgeDue(cat, ids, e, Plain(PayloadMismatch, e.connectionId));
  }

  lemma NoProtectionIssue(cat: Catalogue, active: Option<GraphSnapshot>, g: GraphSnapshot)
    requires forall i :: !Due(cat, active, g, i)
    ensures SlotsExclusive(cat, g) && BoundariesKept(cat, active, g)
  {
    forall c, s ensures !SlotContested(cat, g, c, s) {
      var i := Protecting(ProtectedSlotOverride, s.slot);
      assert ComponentDue(cat, g, c, i) ==> Due(cat, active, g, i);
    }
    if active.Some? {
      var everyNode := NodeIds(active.value.nodes) + NodeIds(g.nodes);
      forall c | c in everyNode ensures BoundaryKept(cat, active.value, g, c) {
        forall i ensures !BoundaryDue(cat, active.value, g, c, i) {
          assert BoundaryDue(cat, active.value, g, c, i) ==> AnyBoundaryDue(cat, active.value, g, everyNode, i);
          assert BoundaryIssue(cat, active, g, i) ==> Due(cat, active, g, i);
        }
        assert !BoundaryDue(cat, active.value, g, c, Protecting(ProtectedComponentRemoved, c));
        assert !BoundaryDue(cat, active.value, g, c, Protecting(ProtectedBoundaryViolation, c));
      }
    }
  }

  lemma WellFormedNoIssue(cat: Catalogue, active: Option<GraphSnapshot>, g: GraphSnapshot, i: ValidationIssue)
    requires WellFormed(cat, active, g)
    ensures !Due(cat, active, g, i)
  {
  }

  /** An exact report is valid exactly for well-formed graphs. */
  lemma ExactMeansWellFormed(
    cat: Catalogue, active: Option<GraphSnapshot>, g: GraphSnapshot, report: ValidationReport)
    requires ExactReport(cat, active, g, report)
    ensures report.valid <==> WellFormed(cat, active, g)
  {
    assert report.issues != [] ==> report.issues[0] in report.issues;
    if report.valid {
      assert forall i :: Due(cat, active, g, i) ==> i in report.issues;
      NoStructuralIssue(cat, active, g);
      NoProtectionIssue(cat, active, g);
    }
    if WellFormed(cat, active, g) {
      forall i ensures i !in report.issues {
        WellFormedNoIssue(cat, active, g, i);
      }
    }
  }

  /** What an approval cannot waive: a report with protection issues only is about a graph in shape. */
  lemma ProtectionIssuesOnly(
    cat: Catalogue, active: Option<GraphSnapshot>, g: GraphSnapshot, report: ValidationReport)
    requires ExactReport(cat, active, g, report)
    requires forall i :: i in report.issues ==> i.category == ProtectedComponent
    ensures Structural(cat, g)
  {
    assert forall i :: Due(cat, active, g, i) ==> i in report.issues;
    NoStructuralIssue(cat, active, g);
  }
}
