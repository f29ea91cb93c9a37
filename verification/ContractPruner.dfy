/** Pruning of connection proposals, compared with what the validator accepts. */
module ContractPruner {
  import opened Ids
  import opened Models
  import opened GraphShape
  import opened PortIndex

  // ------------------------------------------------------------------- naming

  function PortNames(r: RegisteredComponent): seq<string> {
    seq(|r.inputs|, i requires 0 <= i < |r.inputs| => r.inputs[i].name)
    + seq(|r.outputs|, i requires 0 <= i < |r.outputs| => r.outputs[i].name)
    + seq(|r.events|, i requires 0 <= i < |r.events| => r.events[i].name)
  }

  /** Port names are distinct within a component, not empty and free of dots. */
  ghost predicate WellNamed(cat: Catalogue) {
    forall c :: c in cat.components ==>
      var names := PortNames(cat.components[c]);
      && (forall i, j :: 0 <= i < j < |names| ==> names[i] != names[j])
      && (forall i :: 0 <= i < |names| ==> '.' !in names[i] && names[i] != "")
  }

  lemma RefNames(c: Id, r: RegisteredComponent)
    ensures |RefsOf(c, r)| == |PortNames(r)|
    ensures forall i :: 0 <= i < |PortNames(r)| ==>
              RefsOf(c, r)[i].port == PortNames(r)[i] && RefsOf(c, r)[i].componentId == c
  {
  }

  lemma {:induction false} AllRefsExact(cat: Catalogue, order: seq<Id>)
    requires forall c :: c in order ==> c in cat.components
    ensures forall r :: r in AllRefs(cat, order) <==>
              r.componentId in order && r in RefsOf(r.componentId, cat.components[r.componentId])
  {
    if order == [] {
    } else {
      var last := order[|order| - 1];
      assert order == order[..|order| - 1] + [last];
      AllRefsExact(cat, order[..|order| - 1]);
      RefNames(last, cat.components[last]);
      assert forall r :: r in RefsOf(last, cat.components[last]) ==> r.componentId == last;
    }
  }

  /** Where a reference stands among the names of its component. */
  lemma RefWellNamed(cat: Catalogue, order: seq<Id>, r: PortRef) returns (i: nat)
    requires WellNamed(cat) && forall c :: c in order ==> c in cat.components
    requires r in AllRefs(cat, order)
    ensures r.componentId in cat.components
    ensures i < |PortNames(cat.components[r.componentId])| && PortNames(cat.components[r.componentId])[i] == r.port
    ensures i < |RefsOf(r.componentId, cat.components[r.componentId])|
    ensures RefsOf(r.componentId, cat.components[r.componentId])[i] == r
    ensures '.' !in r.port && r.port != ""
  {
    AllRefsExact(cat, order);
    var declared := cat.components[r.componentId];
    RefNames(r.componentId, declared);
    i :| 0 <= i < |RefsOf(r.componentId, declared)| && RefsOf(r.componentId, declared)[i] == r;
  }

  lemma NameDecides(cat: Catalogue, c: Id, i: nat, j: nat)
    requires WellNamed(cat) && c in cat.components
    requires i < |PortNames(cat.components[c])| && j < |PortNames(cat.components[c])|
    requires PortNames(cat.components[c])[i] == PortNames(cat.components[c])[j]
    ensures i == j
  {
  }

  /** Under that naming a qualified id names one port. */
  lemma FqidsDistinct(cat: Catalogue, order: seq<Id>, r: PortRef, s: PortRef)
    requires WellNamed(cat) && forall c :: c in order ==> c in cat.components
    requires r in AllRefs(cat, order) && s in AllRefs(cat, order) && r.Fqid() == s.Fqid()
    ensures r == s && ComponentOf(r.Fqid()) == r.componentId && PortOf(r.Fqid()) == r.port != ""
  {
    var i := RefWellNamed(cat, order, r);
    var j := RefWellNamed(cat, order, s);
    SplitJoin(r.componentId, r.port);
    SplitJoin(s.componentId, s.port);
    NameDecides(cat, r.componentId, i, j);
  }

  lemma LookupExact(cat: Catalogue, order: seq<Id>, r: PortRef)
    requires WellNamed(cat) && forall c :: c in order ==> c in cat.components
    requires r in AllRefs(cat, order)
    ensures r.Fqid() in Indexed(AllRefs(cat, order)) && Indexed(AllRefs(cat, order))[r.Fqid()] == r
  {
    IndexedSound(AllRefs(cat, order));
    FqidsDistinct(cat, order, r, Indexed(AllRefs(cat, order))[r.Fqid()]);
  }

  // -------------------------------------------------------------------- rules

  predicate ViolatesProtection(cat: Catalogue, target: PortRef) {
    && target.componentId in cat.components && cat.components[target.componentId].protected
    && exists p :: p in cat.components[target.componentId].inputs && p.name == target.port
  }

  /** The tests a target has to pass for a source. */
  predicate Legal(cat: Catalogue, denied: set<(string, string)>, source: PortRef, target: PortRef) {
    && target.componentId != source.componentId
    && (source.Fqid(), target.Fqid()) !in denied
    && source.payloadType == target.payloadType
    && !ViolatesProtection(cat, target)
  }

  class ContractPruner {
    const catalogue: Catalogue
    const index: PortIndex
    const denied: set<(string, string)>

    constructor (catalogue: Catalogue, index: PortIndex, denied: set<(string, string)>)
      ensures this.catalogue == catalogue && this.index == index && this.denied == denied
    {
      this.catalogue, this.index, this.denied := catalogue, index, denied;
    }

    method LegalTargets(sourceFqid: string) returns (candidates: seq<PortRef>)
      requires index.Valid()
      ensures sourceFqid !in index.byFqid || index.byFqid[sourceFqid].direction != Output ==> candidates == []
      ensures sourceFqid in index.byFqid && index.byFqid[sourceFqid].direction == Output ==>
        forall t :: t in candidates <==>
          t in index.refs && t.direction == Input && Legal(catalogue, denied, index.byFqid[sourceFqid], t)
    {
      candidates := [];
      var source := index.LookupPort(sourceFqid);
      if source.None? || source.value.direction != Output { return; }
      var all := index.AllInputs();
      for k := 0 to |all|
        invariant forall t :: t in candidates <==> t in all[..k] && Legal(catalogue, denied, source.value, t)
      {
        var target := all[k];
        assert all[..k + 1] == all[..k] + [target];
        if target.componentId == source.value.componentId { continue; }
        if (source.value.Fqid(), target.Fqid()) in denied { continue; }
        if source.value.payloadType != target.payloadType { continue; }
        if ViolatesProtection(catalogue, target) { continue; }
        candidates := candidates + [target];
      }
      assert all[..|all|] == all;
    }

    /** Whether the pruner may propose a pair: what `LegalPairs` lists. */
    ghost predicate Proposes(s: PortRef, t: PortRef) reads index {
      && s in index.refs && s.direction == Output && t in index.refs && t.direction == Input
      && s.Fqid() in index.byFqid && index.byFqid[s.Fqid()].direction == Output
      && Legal(catalogue, denied, index.byFqid[s.Fqid()], t)
    }

    method LegalPairs() returns (pairs: seq<(PortRef, PortRef)>)
      requires index.Valid()
      ensures forall s, t :: (s, t) in pairs <==> Proposes(s, t)
    {
      pairs := [];
      var outputs := index.AllOutputs();
      for k := 0 to |outputs|
        invariant forall s, t :: (s, t) in pairs <==> s in outputs[..k] && Proposes(s, t)
      {
        var source := outputs[k];
        assert outputs[..k + 1] == outputs[..k] + [source];
        var targets := LegalTargets(source.Fqid());
        var more := Paired(source, targets);
        assert source in outputs;
        assert forall t :: t in targets <==> Proposes(source, t) by { IndexedSound(index.refs); }
        pairs := pairs + more;
      }
      assert outputs[..|outputs|] == outputs;
    }

    static method Paired(source: PortRef, targets: seq<PortRef>) returns (pairs: seq<(PortRef, PortRef)>)
      ensures forall s, t :: (s, t) in pairs <==> s == source && t in targets
    {
      pairs := [];
      for k := 0 to |targets|
        invariant forall s, t :: (s, t) in pairs <==> s == source && t in targets[..k]
      {
        assert targets[..k + 1] == targets[..k] + [targets[k]];
        pairs := pairs + [(source, targets[k])];
      }
      assert targets[..|targets|] == targets;
    }
  }

  // --------------------------------------------------- against the validator

  /** Some proposed pair has the endpoints and the payload of the connection. */
  ghost predicate Proposed(cat: Catalogue, order: seq<Id>, denied: set<(string, string)>, e: ConnectionEdge)
    requires forall c :: c in order ==> c in cat.components
  {
    exists s, t :: IsProposal(cat, order, denied, e, s, t)
  }

  ghost predicate IsProposal(cat: Catalogue, order: seq<Id>, denied: set<(string, string)>, e: ConnectionEdge,
                             s: PortRef, t: PortRef)
    requires forall c :: c in order ==> c in cat.components
  {
    && s in AllRefs(cat, order) && s.direction == Output && t in AllRefs(cat, order) && t.direction == Input
    && Legal(cat, denied, s, t)
    && s.Fqid() == e.source && t.Fqid() == e.target && s.payloadType == e.payload
  }

  /** The connection carries the payload type that its output declares. */
  predicate CarriesOutputType(cat: Catalogue, e: ConnectionEdge) {
    ComponentOf(e.source) in cat.components &&
      OutputPort(PortOf(e.source), e.payload) in cat.components[ComponentOf(e.source)].outputs
  }

  /** Between declared ports of two registered components, past the validator's port checks, and not held back. */
  predicate Acceptable(cat: Catalogue, denied: set<(string, string)>, e: ConnectionEdge) {
    var source, target := ComponentOf(e.source), ComponentOf(e.target);
    && Dotted(e.source) && Dotted(e.target) && PortOf(e.target) != "" && PortOf(e.source) != ""
    && source in cat.components && target in cat.components && source != target
    && OutputDeclared(cat, e) && InputMatches(cat, e) && CarriesOutputType(cat, e)
    && (e.source, e.target) !in denied && !cat.IsProtected(target)
  }

  /**
   * The pruner proposes exactly the connections that pass the validator's port and payload checks, carry the
   * type of their output, are not denied and do not enter a protected component.
   */
  lemma ProposalsExact(cat: Catalogue, order: seq<Id>, denied: set<(string, string)>, e: ConnectionEdge)
    requires WellNamed(cat) && RegistrationOrder(cat, order)
    ensures Proposed(cat, order, denied, e) <==> Acceptable(cat, denied, e)
  {
    if Proposed(cat, order, denied, e) {
      var s, t :| IsProposal(cat, order, denied, e, s, t);
      ProposalAcceptable(cat, order, denied, e, s, t);
    }
    if Acceptable(cat, denied, e) { AcceptableProposed(cat, order, denied, e); }
  }

  lemma ProposalAcceptable(cat: Catalogue, order: seq<Id>, denied: set<(string, string)>, e: ConnectionEdge,
                           s: PortRef, t: PortRef)
    requires WellNamed(cat) && RegistrationOrder(cat, order)
    requires IsProposal(cat, order, denied, e, s, t)
    ensures Acceptable(cat, denied, e)
  {
    AllRefsExact(cat, order);
    FqidsDistinct(cat, order, s, s);
    FqidsDistinct(cat, order, t, t);
    assert s.Fqid()[|s.componentId|] == '.' && t.Fqid()[|t.componentId|] == '.';
    RefsOfExactly(s.componentId, cat.components[s.componentId], s);
    RefsOfExactly(t.componentId, cat.components[t.componentId], t);
    NamesUnique(cat, t.componentId);
  }

  lemma NamesUnique(cat: Catalogue, c: Id)
    requires WellNamed(cat) && c in cat.components
    ensures forall p, q :: p in cat.components[c].inputs && q in cat.components[c].inputs && p.name == q.name ==> p == q
  {
    var r := cat.components[c];
    var names := PortNames(r);
    assert forall i :: 0 <= i < |r.inputs| ==> names[i] == r.inputs[i].name;
  }

  lemma AcceptableProposed(cat: Catalogue, order: seq<Id>, denied: set<(string, string)>, e: ConnectionEdge)
    requires WellNamed(cat) && RegistrationOrder(cat, order) && Acceptable(cat, denied, e)
    ensures Proposed(cat, order, denied, e)
  {
    var s := PortRef(ComponentOf(e.source), PortOf(e.source), e.payload, Output);
    var t := PortRef(ComponentOf(e.target), PortOf(e.target), e.payload, Input);
    AllRefsExact(cat, order);
    RefsOfExactly(s.componentId, cat.components[s.componentId], s);
    RefsOfExactly(t.componentId, cat.components[t.componentId], t);
    JoinSplit(e.source);
    JoinSplit(e.target);
    assert IsProposal(cat, order, denied, e, s, t);
  }

  /** What `LegalPairs` lists is what is proposed. */
  lemma PrunerProposes(pruner: ContractPruner, cat: Catalogue, order: seq<Id>, s: PortRef, t: PortRef)
    requires WellNamed(cat) && RegistrationOrder(cat, order)
    requires pruner.catalogue == cat && pruner.index.Valid() && pruner.index.refs == AllRefs(cat, order)
    ensures pruner.Proposes(s, t)
       <==> s in AllRefs(cat, order) && s.direction == Output && t in AllRefs(cat, order) && t.direction == Input
            && Legal(cat, pruner.denied, s, t)
  {
    if s in AllRefs(cat, order) { LookupExact(cat, order, s); }
  }
}
