/** The phase changes a commit or a refusal records for the nodes of a graph. */
module PhaseRuns {
  import opened Ids
  import opened Models
  import opened GraphShape
  import opened Lifecycle
  import opened Drain

  /** One `record` of the lifecycle tracker; false when it raises. */
  function Recorded(r: (Phases, bool), c: Id, p: Phase): (Phases, bool) {
    if r.1 && Legal(r.0, c, p) then (r.0[c := p], true) else (r.0, false)
  }

  /** The phase changes after a commit. */
  function CommitPhases(phases: Phases, nodes: seq<ComponentNode>): (Phases, bool) {
    if nodes == [] then (phases, true)
    else
      var r, c := CommitPhases(phases, nodes[..|nodes| - 1]), nodes[|nodes| - 1].componentId;
      if !r.1 || (c in r.0 && r.0[c] == Phase.Committed) then r
      else Recorded(Recorded(Recorded(r, c, ValidatedDynamic), c, Activated), c, Phase.Committed)
  }

  /** The phase changes after a refusal. */
  function RejectPhases(phases: Phases, nodes: seq<ComponentNode>, deferred: bool): (Phases, bool) {
    if nodes == [] then (phases, true)
    else
      var r, c := RejectPhases(phases, nodes[..|nodes| - 1], deferred), nodes[|nodes| - 1].componentId;
      if !r.1 then r
      else
        var dynamic := if c in r.0 && r.0[c] == Phase.Committed then r else Recorded(r, c, ValidatedDynamic);
        if deferred then dynamic else Recorded(dynamic, c, Failed)
  }

  // ------------------------------------------------------------ once stopped

  lemma {:induction false} CommitPhasesStop(phases: Phases, nodes: seq<ComponentNode>, k: nat)
    requires k <= |nodes| && !CommitPhases(phases, nodes[..k]).1
    ensures CommitPhases(phases, nodes) == CommitPhases(phases, nodes[..k])
    decreases |nodes| - k
  {
    if k < |nodes| {
      assert nodes[..k + 1][..k] == nodes[..k];
      CommitPhasesStop(phases, nodes, k + 1);
    } else {
      assert nodes[..k] == nodes;
    }
  }

  lemma {:induction false} RejectPhasesStop(phases: Phases, nodes: seq<ComponentNode>, deferred: bool, k: nat)
    requires k <= |nodes| && !RejectPhases(phases, nodes[..k], deferred).1
    ensures RejectPhases(phases, nodes, deferred) == RejectPhases(phases, nodes[..k], deferred)
    decreases |nodes| - k
  {
    if k < |nodes| {
      assert nodes[..k + 1][..k] == nodes[..k];
      RejectPhasesStop(phases, nodes, deferred, k + 1);
    } else {
      assert nodes[..k] == nodes;
    }
  }

  // ------------------------------------------------------ exactly when legal

  /** No component among these is in a phase that a commit or a refusal cannot start from. */
  predicate Settleable(phases: Phases, ids: set<Id>) {
    forall c :: c in ids && c in phases ==> phases[c] in {Assembled, ValidatedDynamic, Phase.Committed}
  }

  predicate DistinctNodes(nodes: seq<ComponentNode>) {
    forall i, j :: 0 <= i < j < |nodes| ==> nodes[i].componentId != nodes[j].componentId
  }

  function Marked(phases: Phases, ids: set<Id>, p: Phase): Phases {
    map c | c in phases.Keys + ids :: if c in ids then p else phases[c]
  }

  lemma OneMoreNode(nodes: seq<ComponentNode>)
    requires nodes != []
    ensures NodeIds(nodes) == NodeIds(nodes[..|nodes| - 1]) + {nodes[|nodes| - 1].componentId}
  {
    assert nodes == nodes[..|nodes| - 1] + [nodes[|nodes| - 1]];
  }

  /**
   * A commit gives every node it names the committed phase, up to the first that is in a phase to which no
   * commit leads; that one and those after it stay as they are.
   */
  lemma {:induction false} CommitPhasesUpTo(phases: Phases, nodes: seq<ComponentNode>) returns (k: nat)
    ensures k <= |nodes|
    ensures CommitPhases(phases, nodes) == (Marked(phases, NodeIds(nodes[..k]), Phase.Committed), k == |nodes|)
    ensures Settleable(phases, NodeIds(nodes[..k]))
    ensures k < |nodes| ==> !Settleable(phases, {nodes[k].componentId})
  {
    if nodes == [] {
      k := 0;
      assert Marked(phases, NodeIds(nodes[..k]), Phase.Committed) == phases;
    } else {
      var init, c := nodes[..|nodes| - 1], nodes[|nodes| - 1].componentId;
      k := CommitPhasesUpTo(phases, init);
      assert nodes[..k] == init[..k];
      if k == |init| {
        assert init[..k] == init;
        OneMoreNode(nodes);
        CommitOne(phases, NodeIds(init), c);
        if Settleable(phases, {c}) {
          k := |nodes|;
          assert nodes[..k] == nodes;
        }
      }
    }
  }

  /** So the phases after a commit can be recorded exactly when every tracked node is in a phase to start from. */
  lemma CommitPhasesExact(phases: Phases, nodes: seq<ComponentNode>)
    ensures CommitPhases(phases, nodes).1 <==> Settleable(phases, NodeIds(nodes))
    ensures CommitPhases(phases, nodes).1 ==>
              CommitPhases(phases, nodes).0 == Marked(phases, NodeIds(nodes), Phase.Committed)
  {
    var k := CommitPhasesUpTo(phases, nodes);
    UnsettledNode(phases, nodes, k);
  }

  lemma UnsettledNode(phases: Phases, nodes: seq<ComponentNode>, k: nat)
    requires k <= |nodes| && Settleable(phases, NodeIds(nodes[..k]))
    requires k < |nodes| ==> !Settleable(phases, {nodes[k].componentId})
    ensures k == |nodes| <==> Settleable(phases, NodeIds(nodes))
    ensures k == |nodes| ==> nodes[..k] == nodes
  {
    if k < |nodes| {
      assert nodes[k] in nodes && nodes[k].componentId in NodeIds(nodes);
    } else {
      assert nodes[..k] == nodes;
    }
  }

  lemma CommitOne(phases: Phases, before: set<Id>, c: Id)
    requires Settleable(phases, before)
    ensures var marked := Marked(phases, before, Phase.Committed);
            var r := if c in marked && marked[c] == Phase.Committed then (marked, true)
                     else Recorded(Recorded(Recorded((marked, true), c, ValidatedDynamic), c, Activated),
                                   c, Phase.Committed);
            && (r.1 <==> Settleable(phases, {c}))
            && r.0 == if r.1 then Marked(phases, before + {c}, Phase.Committed) else marked
  {
  }

  /** A deferral: the same, but committed nodes are left alone and the others end up dynamically validated. */
  lemma {:induction false} DeferPhasesUpTo(phases: Phases, nodes: seq<ComponentNode>) returns (k: nat)
    ensures k <= |nodes|
    ensures RejectPhases(phases, nodes, true)
         == (Marked(phases, Uncommitted(phases, NodeIds(nodes[..k])), ValidatedDynamic), k == |nodes|)
    ensures Settleable(phases, NodeIds(nodes[..k]))
    ensures k < |nodes| ==> !Settleable(phases, {nodes[k].componentId})
  {
    if nodes == [] {
      k := 0;
      assert Marked(phases, Uncommitted(phases, NodeIds(nodes[..k])), ValidatedDynamic) == phases;
    } else {
      var init, c := nodes[..|nodes| - 1], nodes[|nodes| - 1].componentId;
      k := DeferPhasesUpTo(phases, init);
      assert nodes[..k] == init[..k];
      if k == |init| {
        assert init[..k] == init;
        OneMoreNode(nodes);
        DeferOne(phases, NodeIds(init), c);
        if Settleable(phases, {c}) {
          k := |nodes|;
          assert nodes[..k] == nodes;
        }
      }
    }
  }

  /** So the phases after a deferral can be recorded under the same condition. */
  lemma DeferPhasesExact(phases: Phases, nodes: seq<ComponentNode>)
    ensures RejectPhases(phases, nodes, true).1 <==> Settleable(phases, NodeIds(nodes))
    ensures RejectPhases(phases, nodes, true).1 ==>
              RejectPhases(phases, nodes, true).0
              == Marked(phases, Uncommitted(phases, NodeIds(nodes)), ValidatedDynamic)
  {
    var k := DeferPhasesUpTo(phases, nodes);
    UnsettledNode(phases, nodes, k);
  }

  function Uncommitted(phases: Phases, ids: set<Id>): set<Id> {
    set c | c in ids && !(c in phases && phases[c] == Phase.Committed)
  }

  lemma DeferOne(phases: Phases, before: set<Id>, c: Id)
    requires Settleable(phases, before)
    ensures var marked := Marked(phases, Uncommitted(phases, before), ValidatedDynamic);
            var r := if c in marked && marked[c] == Phase.Committed then (marked, true)
                     else Recorded((marked, true), c, ValidatedDynamic);
            && (r.1 <==> Settleable(phases, {c}))
            && r.0 == if r.1 then Marked(phases, Uncommitted(phases, before + {c}), ValidatedDynamic) else marked
  {
  }

  /**
   * A rejection fails every node it names, committed ones included, up to the first it cannot change:
   * one in a phase it cannot start from, or one it has failed already.
   */
  lemma {:induction false} RejectPhasesExact(phases: Phases, nodes: seq<ComponentNode>) returns (k: nat)
    ensures k <= |nodes|
    ensures RejectPhases(phases, nodes, false) == (Marked(phases, NodeIds(nodes[..k]), Failed), k == |nodes|)
    ensures Settleable(phases, NodeIds(nodes[..k])) && DistinctNodes(nodes[..k])
    ensures k < |nodes| ==> nodes[k].componentId in NodeIds(nodes[..k]) || !Settleable(phases, {nodes[k].componentId})
  {
    if nodes == [] {
      k := 0;
      assert Marked(phases, NodeIds(nodes[..k]), Failed) == phases;
    } else {
      var init, c := nodes[..|nodes| - 1], nodes[|nodes| - 1].componentId;
      k := RejectPhasesExact(phases, init);
      assert nodes[..k] == init[..k];
      if k == |init| {
        assert init[..k] == init && nodes[..k] == init;
        RejectOne(phases, NodeIds(init), c);
        if c !in NodeIds(init) && Settleable(phases, {c}) {
          OneMoreChanged(phases, init, nodes);
          k := |nodes|;
          assert nodes[..k] == nodes;
        }
      }
    }
  }

  lemma OneMoreChanged(phases: Phases, init: seq<ComponentNode>, nodes: seq<ComponentNode>)
    requires nodes != [] && init == nodes[..|nodes| - 1]
    requires Settleable(phases, NodeIds(init)) && DistinctNodes(init)
    requires nodes[|nodes| - 1].componentId !in NodeIds(init)
    requires Settleable(phases, {nodes[|nodes| - 1].componentId})
    ensures NodeIds(nodes) == NodeIds(init) + {nodes[|nodes| - 1].componentId}
    ensures Settleable(phases, NodeIds(nodes)) && DistinctNodes(nodes)
  {
    OneMoreNode(nodes);
    forall i, j | 0 <= i < j < |nodes| ensures nodes[i].componentId != nodes[j].componentId {
      assert nodes[i] == init[i] && init[i] in init;
      assert j < |init| ==> nodes[j] == init[j];
    }
  }

  lemma RejectOne(phases: Phases, before: set<Id>, c: Id)
    requires Settleable(phases, before)
    ensures var marked := Marked(phases, before, Failed);
            var dynamic := if c in marked && marked[c] == Phase.Committed then (marked, true)
                           else Recorded((marked, true), c, ValidatedDynamic);
            Recorded(dynamic, c, Failed)
            == if c in before || !Settleable(phases, {c}) then (marked, false)
               else (Marked(phases, before + {c}, Failed), true)
  {
    var marked := Marked(phases, before, Failed);
    if c !in before && Settleable(phases, {c}) {
      assert marked[c := ValidatedDynamic][c := Failed] == marked[c := Failed];
      assert marked[c := Failed] == Marked(phases, before + {c}, Failed);
    }
  }

  /** A refusal returns exactly when its nodes can be changed and a rejection names none of them twice. */
  lemma RefusalReturnsExactly(phases: Phases, nodes: seq<ComponentNode>, deferred: bool)
    ensures RejectPhases(phases, nodes, deferred).1
            <==> Settleable(phases, NodeIds(nodes)) && (deferred || DistinctNodes(nodes))
  {
    if deferred {
      DeferPhasesExact(phases, nodes);
    } else {
      var k := RejectPhasesExact(phases, nodes);
      if k == |nodes| {
        assert nodes[..k] == nodes;
      } else {
        StuckNode(phases, nodes, k);
      }
    }
  }

  lemma StuckNode(phases: Phases, nodes: seq<ComponentNode>, k: nat)
    requires k < |nodes|
    requires nodes[k].componentId in NodeIds(nodes[..k]) || !Settleable(phases, {nodes[k].componentId})
    ensures !(Settleable(phases, NodeIds(nodes)) && DistinctNodes(nodes))
  {
    var c := nodes[k].componentId;
    assert nodes[k] in nodes && c in NodeIds(nodes);
    if c in NodeIds(nodes[..k]) {
      var n :| n in nodes[..k] && n.componentId == c;
      var j :| 0 <= j < k && nodes[j] == n;
    }
  }

  // ------------------------------------------------------- drained cutovers

  /** The phases a drained cutover leaves behind. */
  function Bracketed(phases: Phases, targets: seq<Id>): Phases {
    ResumedPhases(SuspendedPhases(phases, targets), Remembered(phases, targets), targets)
  }

  /**
   * The phases after a drained cutover can be recorded exactly when, before the drain, every tracked
   * node was assembled, dynamically validated or committed: the drain neither helps nor harms.
   */
  lemma CutoverSettlesExactly(phases: Phases, targets: seq<Id>, nodes: seq<ComponentNode>)
    ensures CommitPhases(Bracketed(phases, targets), nodes).1 <==> Settleable(phases, NodeIds(nodes))
  {
    SuspendResumeBracket(phases, targets, targets);
    CommitPhasesExact(Bracketed(phases, targets), nodes);
  }

  /**
   * After a rejection, a cut-over graph's phases can be recorded exactly when they could before and
   * the graph shares no component with the nodes the rejection failed.
   */
  lemma RejectionSpoilsLaterCommits(
    phases: Phases, refused: seq<ComponentNode>, targets: seq<Id>, committed: seq<ComponentNode>)
    returns (k: nat)
    ensures k <= |refused| && (k == |refused| <==> RejectPhases(phases, refused, false).1)
    ensures RejectPhases(phases, refused, false).0 == Marked(phases, NodeIds(refused[..k]), Failed)
    ensures CommitPhases(Bracketed(RejectPhases(phases, refused, false).0, targets), committed).1
            <==> Settleable(phases, NodeIds(committed)) && NodeIds(committed) !! NodeIds(refused[..k])
  {
    k := RejectPhasesExact(phases, refused);
    CutoverSettlesExactly(RejectPhases(phases, refused, false).0, targets, committed);
    MarkedFailed(phases, NodeIds(refused[..k]), NodeIds(committed));
  }

  lemma MarkedFailed(phases: Phases, failed: set<Id>, ids: set<Id>)
    ensures Settleable(Marked(phases, failed, Failed), ids) <==> Settleable(phases, ids) && ids !! failed
  {
    if !(ids !! failed) {
      var c :| c in ids && c in failed;
      assert Marked(phases, failed, Failed)[c] == Failed;
    }
  }

  /** A component suspended before the drain comes back activated, from where no commit can be recorded. */
  lemma SuspendedCannotCommit(n: ComponentNode)
    ensures var phases := map[n.componentId := Suspended];
            && Bracketed(phases, [n.componentId]) == map[n.componentId := Activated]
            && !CommitPhases(Bracketed(phases, [n.componentId]), [n]).1
  {
    var phases: Phases := map[n.componentId := Suspended];
    SuspendResumeBracket(phases, [n.componentId], [n.componentId]);
    CommitPhasesExact(Bracketed(phases, [n.componentId]), [n]);
    assert n in [n];
  }

  /** A component that was assembled is refused once without trouble; refusing it again raises. */
  lemma SecondRefusalRaises(n: ComponentNode, deferred: bool)
    ensures var first := RejectPhases(map[n.componentId := Assembled], [n], false);
            first == (map[n.componentId := Failed], true) && !RejectPhases(first.0, [n], deferred).1
  {
    var phases: Phases := map[n.componentId := Assembled];
    assert n in [n] && NodeIds([n]) == {n.componentId} && [n][..1] == [n];
    var k := RejectPhasesExact(phases, [n]);
    RefusalReturnsExactly(phases, [n], false);
    assert Marked(phases, {n.componentId}, Failed) == map[n.componentId := Failed];
    RefusalReturnsExactly(map[n.componentId := Failed], [n], deferred);
  }
}
