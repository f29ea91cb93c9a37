/** `resolve_boot_order`: Kahn's topological sort over component manifests. */
module BootOrder {
  import opened Ids
  import opened Models
  import opened Digraph
  import opened CycleCheck

  datatype ComponentManifest = ComponentManifest(
    id: Option<Id>,
    name: Id,
    depComponents: seq<Id>,
    depCapabilities: seq<string>,
    provided: set<string>,
    required: set<string>)
  {
    /** `resolved_id`: an absent or empty id falls back to the name. */
    function ResolvedId(): (r: Id)
      ensures id in {None, Some("")} ==> r == name
      ensures id !in {None, Some("")} ==> Some(r) == id
    {
      if id.Some? && id.value != "" then id.value else name
    }
  }

  datatype Resolution =
    | Ordered(order: seq<ComponentManifest>)
    | MissingDependency(component: Id, missing: string)
    | CircularDependency(nodes: seq<Id>)

  // ------------------------------------------------- the dependency relation

  function IdsOf(ms: seq<ComponentManifest>): set<Id> {
    set m | m in ms :: m.ResolvedId()
  }

  function Providers(ms: seq<ComponentManifest>, capability: string): set<Id> {
    set m | m in ms && capability in m.provided :: m.ResolvedId()
  }

  predicate Wants(m: ComponentManifest, capability: string) {
    capability in m.depCapabilities || capability in m.required
  }

  /** The components that must be activated before `m`. */
  function Dependencies(ms: seq<ComponentManifest>, m: ComponentManifest): set<Id> {
    (set d | d in m.depComponents)
    + (set p | p in ms && p.ResolvedId() != m.ResolvedId()
           && (exists c :: c in p.provided && Wants(m, c)) :: p.ResolvedId())
  }

  function DependencyEdges(ms: seq<ComponentManifest>): Edges {
    set m, d | m in ms && d in Dependencies(ms, m) :: (d, m.ResolvedId())
  }

  predicate MissesComponent(ms: seq<ComponentManifest>, m: ComponentManifest, dep: string) {
    dep in m.depComponents && dep !in IdsOf(ms)
  }

  predicate MissesCapability(ms: seq<ComponentManifest>, m: ComponentManifest, dep: string) {
    dep in m.depCapabilities && Providers(ms, dep) == {}
  }

  /** Some declared dependency of `m` is not there. */
  predicate Misses(ms: seq<ComponentManifest>, m: ComponentManifest, dep: string) {
    MissesComponent(ms, m, dep) || MissesCapability(ms, m, dep)
  }

  /** Every declared dependency of `m` is there. */
  predicate Satisfied(ms: seq<ComponentManifest>, m: ComponentManifest) {
    && (forall d :: d in m.depComponents ==> d in IdsOf(ms))
    && (forall c :: c in m.depCapabilities ==> Providers(ms, c) != {})
  }

  predicate Complete(ms: seq<ComponentManifest>) {
    forall m :: m in ms ==> Satisfied(ms, m)
  }

  // ---------------------------------------------------------- Kahn's algorithm

  function Predecessors(E: Edges, c: Id): set<Id> {
    set e | e in E && e.1 == c :: e.0
  }

  function SuccessorsOf(E: Edges, c: Id): set<Id> {
    set e | e in E && e.0 == c :: e.1
  }

  /** The queue holds exactly the nodes whose predecessors are all done. */
  ghost predicate KahnState(ids: set<Id>, E: Edges, queue: seq<Id>, done: set<Id>) {
    && (forall e :: e in E ==> e.0 in ids && e.1 in ids)
    && done <= ids && (forall c :: c in done ==> Predecessors(E, c) <= done)
    && (forall c :: c in queue <==> c in ids && c !in done && Predecessors(E, c) <= done)
    && Distinct(queue)
  }

  function Released(E: Edges, c: Id, done: set<Id>): set<Id> {
    set s | s in SuccessorsOf(E, c) && Predecessors(E, s) <= done + {c}
  }

  /** What is ready after `c` is done: the rest of the queue and what `c` releases. */
  lemma ReadyNext(ids: set<Id>, E: Edges, queue: seq<Id>, done: set<Id>, s: Id)
    requires KahnState(ids, E, queue, done) && queue != []
    ensures s in queue[1..] || s in Released(E, queue[0], done)
            <==> s in ids && s !in done + {queue[0]} && Predecessors(E, s) <= done + {queue[0]}
    ensures !(s in queue[1..] && s in Released(E, queue[0], done))
  {
    var c := queue[0];
    assert queue == [c] + queue[1..];
    assert c in queue && c !in queue[1..];
    if c in Predecessors(E, s) {
      assert s !in queue;
      assert s in SuccessorsOf(E, c);
      assert s != c;
    } else {
      assert s !in SuccessorsOf(E, c);
      assert Predecessors(E, s) <= done + {c} <==> Predecessors(E, s) <= done;
    }
  }

  lemma KahnStep(ids: set<Id>, E: Edges, queue: seq<Id>, done: set<Id>)
    requires KahnState(ids, E, queue, done) && queue != []
    ensures KahnState(ids, E, queue[1..] + Sorted(Released(E, queue[0], done)), done + {queue[0]})
  {
    var rest, released := queue[1..], Sorted(Released(E, queue[0], done));
    assert queue[0] in queue;
    forall s ensures s in rest + released
      <==> s in ids && s !in done + {queue[0]} && Predecessors(E, s) <= done + {queue[0]}
    {
      ReadyNext(ids, E, queue, done, s);
    }
    forall s | s in released ensures s !in rest {
      ReadyNext(ids, E, queue, done, s);
    }
    AppendDistinct(rest, released);
  }

  lemma AppendDistinct(a: seq<Id>, b: seq<Id>)
    requires Distinct(a) && Distinct(b) && forall x :: x in b ==> x !in a
    ensures Distinct(a + b)
  {
    forall i, j | 0 <= i < j < |a + b| ensures (a + b)[i] != (a + b)[j] {
      if i < |a| <= j { assert b[j - |a|] in b; }
    }
  }

  /** The order in which the queue empties. */
  ghost function KahnFrom(ids: set<Id>, E: Edges, queue: seq<Id>, done: set<Id>): seq<Id>
    requires KahnState(ids, E, queue, done)
    decreases ids - done
  {
    if queue == [] then []
    else
      KahnStep(ids, E, queue, done);
      assert queue[0] in queue;
      [queue[0]] + KahnFrom(ids, E, queue[1..] + Sorted(Released(E, queue[0], done)), done + {queue[0]})
  }

  function Sources(ids: set<Id>, E: Edges): set<Id> {
    set c | c in ids && Predecessors(E, c) == {}
  }

  lemma KahnStart(ids: set<Id>, E: Edges)
    requires forall e :: e in E ==> e.0 in ids && e.1 in ids
    ensures KahnState(ids, E, Sorted(Sources(ids, E)), {})
  {
  }

  ghost function Kahn(ids: set<Id>, E: Edges): seq<Id>
    requires forall e :: e in E ==> e.0 in ids && e.1 in ids
  {
    KahnStart(ids, E);
    KahnFrom(ids, E, Sorted(Sources(ids, E)), {})
  }

  lemma KahnFromUnfold(ids: set<Id>, E: Edges, queue: seq<Id>, done: set<Id>) returns (next: seq<Id>, later: seq<Id>)
    requires KahnState(ids, E, queue, done) && queue != []
    ensures next == queue[1..] + Sorted(Released(E, queue[0], done))
    ensures KahnState(ids, E, next, done + {queue[0]}) && later == KahnFrom(ids, E, next, done + {queue[0]})
    ensures KahnFrom(ids, E, queue, done) == [queue[0]] + later
    ensures queue[0] in ids && queue[0] !in done && Predecessors(E, queue[0]) <= done
  {
    KahnStep(ids, E, queue, done);
    assert queue[0] in queue;
    next := queue[1..] + Sorted(Released(E, queue[0], done));
    later := KahnFrom(ids, E, next, done + {queue[0]});
  }

  /** Everything listed has all its predecessors done or listed before it. */
  ghost predicate AfterPredecessors(E: Edges, done: set<Id>, order: seq<Id>) {
    forall i, p :: 0 <= i < |order| && (p, order[i]) in E ==> p in done || p in order[..i]
  }

  lemma FirstThenLater(E: Edges, done: set<Id>, c: Id, later: seq<Id>)
    requires Predecessors(E, c) <= done && AfterPredecessors(E, done + {c}, later)
    ensures AfterPredecessors(E, done, [c] + later)
  {
    var order := [c] + later;
    forall i, p | 0 <= i < |order| && (p, order[i]) in E ensures p in done || p in order[..i] {
      if i == 0 {
        assert p in Predecessors(E, c);
      } else {
        var j := i - 1;
        assert order[i] == later[j] && order[..i] == [c] + later[..j];
        assert (p, later[j]) in E;
        assert p in done + {c} || p in later[..j];
      }
    }
  }

  lemma FirstIsNew(c: Id, later: seq<Id>)
    requires Distinct(later) && c !in later
    ensures Distinct([c] + later)
  {
  }

  /** Whatever leaves the queue does so once, after its predecessors. */
  lemma {:induction false} KahnFromOrders(ids: set<Id>, E: Edges, queue: seq<Id>, done: set<Id>)
    requires KahnState(ids, E, queue, done)
    ensures var order := KahnFrom(ids, E, queue, done);
            && Distinct(order)
            && (forall x :: x in order ==> x in ids && x !in done)
            && AfterPredecessors(E, done, order)
    decreases ids - done
  {
    if queue == [] {
    } else {
      var next, later := KahnFromUnfold(ids, E, queue, done);
      KahnFromOrders(ids, E, next, done + {queue[0]});
      FirstThenLater(E, done, queue[0], later);
      FirstIsNew(queue[0], later);
    }
  }

  /** Some predecessor of x is neither done nor listed. */
  ghost predicate Waits(E: Edges, done: set<Id>, order: seq<Id>, x: Id) {
    exists p :: p in Predecessors(E, x) && p !in done && p !in order
  }

  /** What never leaves the queue waits for something that never does. */
  lemma {:induction false} KahnFromLeaves(ids: set<Id>, E: Edges, queue: seq<Id>, done: set<Id>)
    requires KahnState(ids, E, queue, done)
    ensures var order := KahnFrom(ids, E, queue, done);
            forall x :: x in ids && x !in done && x !in order ==> Waits(E, done, order, x)
    decreases ids - done
  {
    var order := KahnFrom(ids, E, queue, done);
    if queue == [] {
      forall x | x in ids && x !in done ensures Waits(E, done, order, x) {
        assert x !in queue;
        var p :| p in Predecessors(E, x) && p !in done;
      }
    } else {
      var c := queue[0];
      var next, later := KahnFromUnfold(ids, E, queue, done);
      KahnFromLeaves(ids, E, next, done + {c});
      forall x | x in ids && x !in done && x !in order ensures Waits(E, done, order, x) {
        assert x !in later && x !in done + {c};
        assert Waits(E, done + {c}, later, x);
        var p :| p in Predecessors(E, x) && p !in done + {c} && p !in later;
      }
    }
  }

  ghost predicate DownstreamOfCycle(E: Edges, x: Id) {
    exists c :: OnCycle(E, c) && Reaches(E, c, x)
  }

  /** Kahn's order lists nodes once and after all their predecessors. */
  lemma KahnTopological(ids: set<Id>, E: Edges)
    requires forall e :: e in E ==> e.0 in ids && e.1 in ids
    ensures var order := Kahn(ids, E);
            && Distinct(order) && (forall x :: x in order ==> x in ids)
            && (forall i, p :: 0 <= i < |order| && (p, order[i]) in E ==> p in order[..i])
  {
    KahnStart(ids, E);
    KahnFromOrders(ids, E, Sorted(Sources(ids, E)), {});
  }

  // ------------------------------------------------------ in which order exactly

  /** How many nodes are listed when the last predecessor of x is: 0 if x has none among them. */
  function FreedAt(E: Edges, order: seq<Id>, x: Id): (n: nat)
    ensures n <= |order| && (n > 0 ==> (order[n - 1], x) in E)
    ensures forall k :: n <= k < |order| ==> (order[k], x) !in E
  {
    if order == [] then 0
    else if (order[|order| - 1], x) in E then |order|
    else FreedAt(E, order[..|order| - 1], x)
  }

  lemma {:induction false} FreedStays(E: Edges, order: seq<Id>, more: seq<Id>, x: Id)
    requires forall y :: y in more ==> (y, x) !in E
    ensures FreedAt(E, order + more, x) == FreedAt(E, order, x)
    decreases |more|
  {
    if more == [] {
      assert order + more == order;
    } else {
      var init := more[..|more| - 1];
      assert (order + more)[..|order + more| - 1] == order + init;
      assert more[|more| - 1] in more && forall y :: y in init ==> y in more;
      FreedStays(E, order, init, x);
    }
  }

  /** Whatever is freed earlier comes first; of those freed together, the least id. */
  ghost predicate InTurn(E: Edges, order: seq<Id>) {
    forall i, j :: 0 <= i < j < |order| ==> Earlier(E, order, order[i], order[j])
  }

  ghost predicate Earlier(E: Edges, order: seq<Id>, x: Id, y: Id) {
    var a, b := FreedAt(E, order, x), FreedAt(E, order, y);
    a < b || (a == b && Lt(x, y))
  }

  /** When the nodes of the queue are freed, with `p` listed before it and `more` behind it. */
  lemma QueuedFreed(ids: set<Id>, E: Edges, p: seq<Id>, queue: seq<Id>, done: set<Id>, more: seq<Id>, x: Id)
    requires KahnState(ids, E, queue, done) && forall y :: y in p <==> y in done
    requires (forall y :: y in more ==> y !in done) && (x in p || x in queue)
    ensures FreedAt(E, p + queue + more, x) == FreedAt(E, p + queue, x) <= |p|
  {
    assert Predecessors(E, x) <= done;
    forall y | y in queue || y in more ensures (y, x) !in E {
      assert y !in done;
      assert (y, x) in E ==> y in Predecessors(E, x);
    }
    FreedStays(E, p + queue, more, x);
    FreedStays(E, p, queue, x);
  }

  lemma ReleasedFreed(ids: set<Id>, E: Edges, p: seq<Id>, queue: seq<Id>, done: set<Id>, x: Id)
    requires KahnState(ids, E, queue, done) && queue != [] && forall y :: y in p <==> y in done
    requires x in Released(E, queue[0], done)
    ensures FreedAt(E, p + queue + Sorted(Released(E, queue[0], done)), x) == |p| + 1
  {
    var c, released := queue[0], Sorted(Released(E, queue[0], done));
    forall y | y in queue[1..] + released ensures (y, x) !in E {
      NotFreeing(ids, E, queue, done, x, y);
    }
    Regrouped(p, queue, released);
    FreedStays(E, p + [c], queue[1..] + released, x);
    FreedByLast(E, p, c, x);
  }

  lemma FreedByLast(E: Edges, p: seq<Id>, c: Id, x: Id)
    requires (c, x) in E
    ensures FreedAt(E, p + [c], x) == |p| + 1
  {
  }

  lemma NotFreeing(ids: set<Id>, E: Edges, queue: seq<Id>, done: set<Id>, x: Id, y: Id)
    requires KahnState(ids, E, queue, done) && queue != [] && x in Released(E, queue[0], done)
    requires y in queue[1..] || y in Released(E, queue[0], done)
    ensures (y, x) !in E
  {
    ReadyNext(ids, E, queue, done, y);
    assert (y, x) in E ==> y in Predecessors(E, x);
  }

  lemma Regrouped(p: seq<Id>, queue: seq<Id>, released: seq<Id>)
    requires queue != []
    ensures p + queue + released == (p + [queue[0]]) + (queue[1..] + released)
  {
    assert queue == [queue[0]] + queue[1..];
  }

  lemma Moved(p: seq<Id>, c: Id, later: seq<Id>)
    ensures p + ([c] + later) == (p + [c]) + later
  {
  }

  lemma StepInTurn(ids: set<Id>, E: Edges, p: seq<Id>, queue: seq<Id>, done: set<Id>)
    requires KahnState(ids, E, queue, done) && queue != [] && forall y :: y in p <==> y in done
    requires InTurn(E, p + queue)
    ensures InTurn(E, p + queue + Sorted(Released(E, queue[0], done)))
  {
    var listed, released := p + queue, Sorted(Released(E, queue[0], done));
    forall y | y in released ensures y !in done {
      ReadyNext(ids, E, queue, done, y);
    }
    forall x | x in listed ensures FreedAt(E, listed + released, x) == FreedAt(E, listed, x) <= |p| {
      QueuedFreed(ids, E, p, queue, done, released, x);
    }
    forall x | x in released ensures FreedAt(E, listed + released, x) == |p| + 1 {
      ReleasedFreed(ids, E, p, queue, done, x);
    }
    AppendInTurn(E, listed, released, |p|);
  }

  lemma AppendInTurn(E: Edges, listed: seq<Id>, released: seq<Id>, n: nat)
    requires InTurn(E, listed) && Ascending(released)
    requires forall x :: x in listed ==> FreedAt(E, listed + released, x) == FreedAt(E, listed, x) <= n
    requires forall x :: x in released ==> FreedAt(E, listed + released, x) == n + 1
    ensures InTurn(E, listed + released)
  {
    var all := listed + released;
    forall i, j | 0 <= i < j < |all| ensures Earlier(E, all, all[i], all[j]) {
      if j < |listed| {
        assert all[i] == listed[i] && all[j] == listed[j];
        assert Earlier(E, listed, listed[i], listed[j]);
      } else {
        assert all[j] == released[j - |listed|];
        if i < |listed| {
          assert all[i] == listed[i];
        } else {
          assert all[i] == released[i - |listed|];
        }
      }
    }
  }

  lemma {:induction false} KahnFromInTurn(ids: set<Id>, E: Edges, p: seq<Id>, queue: seq<Id>, done: set<Id>)
    requires KahnState(ids, E, queue, done) && forall y :: y in p <==> y in done
    requires InTurn(E, p + queue)
    ensures InTurn(E, p + KahnFrom(ids, E, queue, done))
    decreases ids - done
  {
    if queue == [] {
    } else {
      var c, released := queue[0], Sorted(Released(E, queue[0], done));
      var next, later := KahnFromUnfold(ids, E, queue, done);
      StepInTurn(ids, E, p, queue, done);
      Regrouped(p, queue, released);
      KahnFromInTurn(ids, E, p + [c], next, done + {c});
      Moved(p, c, later);
    }
  }

  /**
   * The exact order: a node comes before another exactly when the last of its predecessors is listed
   * earlier, or is the same and its id is less. With `KahnLists` this leaves no choice.
   */
  lemma KahnInTurn(ids: set<Id>, E: Edges)
    requires forall e :: e in E ==> e.0 in ids && e.1 in ids
    ensures InTurn(E, Kahn(ids, E))
  {
    var queue := Sorted(Sources(ids, E));
    KahnStart(ids, E);
    forall i, j | 0 <= i < j < |queue| ensures Earlier(E, queue, queue[i], queue[j]) {
      NoneFrees(ids, E, queue, queue[i]);
      NoneFrees(ids, E, queue, queue[j]);
    }
    assert [] + queue == queue;
    KahnFromInTurn(ids, E, [], queue, {});
    assert [] + Kahn(ids, E) == Kahn(ids, E);
  }

  lemma NoneFrees(ids: set<Id>, E: Edges, queue: seq<Id>, x: Id)
    requires x in Sources(ids, E)
    ensures FreedAt(E, queue, x) == 0
  {
    assert forall y :: (y, x) in E ==> y in Predecessors(E, x);
  }

  /** A node that is never listed waits for another one. */
  lemma UnlistedWaits(ids: set<Id>, E: Edges, order: seq<Id>, a: Id) returns (p: Id)
    requires forall e :: e in E ==> e.0 in ids && e.1 in ids
    requires order == Kahn(ids, E) && a in ids && a !in order
    ensures (p, a) in E && p in ids && p !in order
  {
    KahnStart(ids, E);
    KahnFromLeaves(ids, E, Sorted(Sources(ids, E)), {});
    assert Waits(E, {}, order, a);
    p :| p in Predecessors(E, a) && p !in {} && p !in order;
    PredecessorInside(ids, E, p, a);
  }

  lemma PredecessorInside(ids: set<Id>, E: Edges, p: Id, a: Id)
    requires forall e :: e in E ==> e.0 in ids && e.1 in ids
    requires p in Predecessors(E, a)
    ensures (p, a) in E && p in ids
  {
  }

  lemma UnlistedIsDownstream(ids: set<Id>, E: Edges, x: Id)
    requires forall e :: e in E ==> e.0 in ids && e.1 in ids
    requires x in ids && x !in Kahn(ids, E)
    ensures DownstreamOfCycle(E, x)
  {
    var order := Kahn(ids, E);
    var rest := set y | y in ids && y !in order;
    forall a | a in rest ensures !IsSource(E, rest, a) {
      var p := UnlistedWaits(ids, E, order, a);
      assert p in rest;
    }
    var c := NoSourceDownstreamOfCycle(E, rest, x);
  }

  /** It lists exactly the nodes that are neither on nor downstream of a cycle. */
  lemma KahnLists(ids: set<Id>, E: Edges, x: Id)
    requires forall e :: e in E ==> e.0 in ids && e.1 in ids
    ensures x in Kahn(ids, E) <==> x in ids && !DownstreamOfCycle(E, x)
  {
    KahnTopological(ids, E);
    if x in Kahn(ids, E) {
      OrderedIsUpstream(E, Kahn(ids, E), x);
    } else if x in ids {
      UnlistedIsDownstream(ids, E, x);
    }
  }

  lemma OrderedIsUpstream(E: Edges, order: seq<Id>, x: Id)
    requires forall i, p :: 0 <= i < |order| && (p, order[i]) in E ==> p in order[..i]
    requires x in order
    ensures !DownstreamOfCycle(E, x)
  {
    var R := Reversed(E);
    assert SuccessorsFirst(R, order);
    var s := set a | a in order;
    forall a, b | (a, b) in R && a in s ensures b in s {
      var i :| 0 <= i < |order| && order[i] == a;
      assert (b, a) in E;
    }
    forall c | OnCycle(E, c) && Reaches(E, c, x) ensures false {
      if c != x {
        ReachesIsPlus(E, c, x);
        ReachesPlusReversed(E, c, x);
        PlusIsReaches(R, x, c);
      } else {
        ReachesRefl(R, x);
      }
      ClosedKeepsReach(R, s, x, c);
      SuccessorsFirstNoCycle(R, order, c);
      ReachesPlusReversed(E, c, c);
    }
  }

  lemma ReachesIsPlus(E: Edges, a: Id, b: Id)
    requires Reaches(E, a, b) && a != b
    ensures ReachesPlus(E, a, b)
  {
    var w :| WalkBetween(E, a, b, w);
    assert |w| > 1;
  }

  /** There is a cycle exactly when some node is never listed. */
  lemma KahnComplete(ids: set<Id>, E: Edges)
    requires forall e :: e in E ==> e.0 in ids && e.1 in ids
    ensures |Kahn(ids, E)| == |ids| <==> Acyclic(E)
    ensures Acyclic(E) ==> forall x :: x in Kahn(ids, E) <==> x in ids
  {
    var order := Kahn(ids, E);
    KahnTopological(ids, E);
    var listed := set x | x in order;
    DistinctSize(order);
    if Acyclic(E) {
      forall x ensures x in order <==> x in ids { KahnLists(ids, E, x); }
      assert listed == ids;
    } else {
      var c :| OnCycle(E, c);
      var b := FirstEdge(E, c, c);
      ReachesRefl(E, c);
      KahnLists(ids, E, c);
      assert c in ids && c !in listed;
      assert listed <= ids - {c};
      SubsetSize(listed, ids - {c});
    }
  }

  lemma SubsetSize(a: set<Id>, b: set<Id>)
    requires a <= b
    ensures |a| <= |b|
  {
    assert b == a + (b - a);
  }

  lemma {:induction false} DistinctSize(s: seq<Id>)
    requires Distinct(s)
    ensures |set x | x in s| == |s|
  {
    if s == [] {
    } else {
      var init, last := s[..|s| - 1], s[|s| - 1];
      assert s == init + [last];
      DistinctSize(init);
      assert last !in init;
      assert (set x | x in s) == (set x | x in init) + {last};
    }
  }

  // ------------------------------------------------------ building the graph

  type Neighbours = map<Id, set<Id>>

  function Of(m: Neighbours, k: Id): set<Id> {
    if k in m then m[k] else {}
  }

  function Joined(m: Neighbours, k: Id, v: Id): Neighbours {
    m[k := Of(m, k) + {v}]
  }

  /** Both dictionaries hold exactly the edges of `E`. */
  ghost predicate Represents(graph: Neighbours, reverse: Neighbours, E: Edges) {
    && (forall p :: Of(graph, p) == SuccessorsOf(E, p))
    && (forall c :: Of(reverse, c) == Predecessors(E, c))
  }

  lemma JoinedRepresents(graph: Neighbours, reverse: Neighbours, E: Edges, p: Id, c: Id)
    requires Represents(graph, reverse, E)
    ensures Represents(Joined(graph, p, c), Joined(reverse, c, p), E + {(p, c)})
  {
    forall x ensures Of(Joined(graph, p, c), x) == SuccessorsOf(E + {(p, c)}, x) {
      assert SuccessorsOf(E + {(p, c)}, x) == SuccessorsOf(E, x) + (if x == p then {c} else {});
      assert Of(graph, x) == SuccessorsOf(E, x);
    }
    forall x ensures Of(Joined(reverse, c, p), x) == Predecessors(E + {(p, c)}, x) {
      assert Predecessors(E + {(p, c)}, x) == Predecessors(E, x) + (if x == c then {p} else {});
      assert Of(reverse, x) == Predecessors(E, x);
    }
  }

  function Into(from: set<Id>, c: Id): Edges {
    set p | p in from :: (p, c)
  }

  lemma IntoOneMore(from: set<Id>, p: Id, c: Id)
    ensures Into(from + {p}, c) == Into(from, c) + {(p, c)}
  {
  }

  method BuildCapabilityIndex(ms: seq<ComponentManifest>) returns (index: AdjacencyLists)
    ensures forall c, p :: Successor(index, c, p) <==> p in Providers(ms, c)
    ensures forall c :: c in index ==> index[c] != []
  {
    index := map[];
    for k := 0 to |ms|
      invariant forall c, p :: Successor(index, c, p) <==> p in Providers(ms[..k], c)
      invariant forall c :: c in index ==> index[c] != []
    {
      assert ms[..k + 1] == ms[..k] + [ms[k]];
      var pending := ms[k].provided;
      while pending != {}
        invariant pending <= ms[k].provided
        invariant forall c, p :: Successor(index, c, p) <==>
          p in Providers(ms[..k], c) || (c in ms[k].provided - pending && p == ms[k].ResolvedId())
        invariant forall c :: c in index ==> index[c] != []
        decreases pending
      {
        var capability :| capability in pending;
        pending := pending - {capability};
        AppendedSuccessors(index, capability, ms[k].ResolvedId());
        index := Appended(index, capability, ms[k].ResolvedId());
      }
      ProvidersOneMore(ms[..k], ms[k]);
    }
    assert ms[..|ms|] == ms;
  }

  lemma ProvidersOneMore(ms: seq<ComponentManifest>, m: ComponentManifest)
    ensures forall c :: Providers(ms + [m], c) == Providers(ms, c) + (if c in m.provided then {m.ResolvedId()} else {})
  {
  }

  function Others(providers: seq<Id>, cid: Id): set<Id> {
    set p | p in providers && p != cid
  }

  lemma OthersOneMore(providers: seq<Id>, p: Id, cid: Id)
    ensures Others(providers + [p], cid) == Others(providers, cid) + (if p != cid then {p} else {})
  {
  }

  method AddEdge(graph0: Neighbours, reverse0: Neighbours, p: Id, cid: Id, ghost E: Edges, ghost from: set<Id>)
    returns (graph: Neighbours, reverse: Neighbours)
    requires Represents(graph0, reverse0, E + Into(from, cid))
    ensures Represents(graph, reverse, E + Into(from + {p}, cid))
    ensures graph.Keys == graph0.Keys + {p} && reverse.Keys == reverse0.Keys + {cid}
  {
    JoinedRepresents(graph0, reverse0, E + Into(from, cid), p, cid);
    IntoOneMore(from, p, cid);
    assert (E + Into(from, cid)) + {(p, cid)} == E + Into(from + {p}, cid);
    graph, reverse := Joined(graph0, p, cid), Joined(reverse0, cid, p);
  }

  /** Edges from listed components into `cid`, a component's own provision aside. */
  method AddProviders(
    graph0: Neighbours, reverse0: Neighbours, providers: seq<Id>, cid: Id, ghost E: Edges, ghost from: set<Id>)
    returns (graph: Neighbours, reverse: Neighbours)
    requires Represents(graph0, reverse0, E + Into(from, cid)) && cid in reverse0
    ensures Represents(graph, reverse, E + Into(from + Others(providers, cid), cid))
    ensures graph0.Keys <= graph.Keys && reverse.Keys == reverse0.Keys
  {
    graph, reverse := graph0, reverse0;
    assert from + Others([], cid) == from;
    for k := 0 to |providers|
      invariant Represents(graph, reverse, E + Into(from + Others(providers[..k], cid), cid))
      invariant graph0.Keys <= graph.Keys && reverse.Keys == reverse0.Keys
    {
      assert providers[..k + 1] == providers[..k] + [providers[k]];
      OthersOneMore(providers[..k], providers[k], cid);
      ghost var before := from + Others(providers[..k], cid);
      if providers[k] != cid {
        graph, reverse := AddEdge(graph, reverse, providers[k], cid, E, before);
        assert before + {providers[k]} == from + Others(providers[..k + 1], cid);
      }
    }
    assert providers[..|providers|] == providers;
  }

  /** The components that provide one of several capabilities, `cid` aside. */
  ghost function Supplying(ms: seq<ComponentManifest>, capabilities: set<string>, cid: Id): set<Id> {
    set m | m in ms && m.ResolvedId() != cid && m.provided * capabilities != {} :: m.ResolvedId()
  }

  lemma SupplyingOneMore(ms: seq<ComponentManifest>, capabilities: set<string>, c: string, cid: Id, providers: seq<Id>)
    requires forall p :: p in providers <==> p in Providers(ms, c)
    ensures Supplying(ms, capabilities + {c}, cid) == Supplying(ms, capabilities, cid) + Others(providers, cid)
  {
    forall m | m in ms
      ensures m.provided * (capabilities + {c}) != {} <==> m.provided * capabilities != {} || c in m.provided {
      if c in m.provided { assert c in m.provided * (capabilities + {c}); }
      assert m.provided * (capabilities + {c}) == m.provided * capabilities + (if c in m.provided then {c} else {});
    }
    forall x ensures x in Supplying(ms, capabilities + {c}, cid)
      <==> x in Supplying(ms, capabilities, cid) + Others(providers, cid) {
      if x in Others(providers, cid) {
        assert x in Providers(ms, c);
      }
      if x in Supplying(ms, capabilities + {c}, cid) {
        var m :| m in ms && m.ResolvedId() == x && x != cid && m.provided * (capabilities + {c}) != {};
        if c in m.provided { assert x in Providers(ms, c) && x in providers; }
      }
    }
  }

  /** Capability edges: declared ones must have a provider, required ones need not. */
  method AddCapabilities(
    ghost ms: seq<ComponentManifest>, index: AdjacencyLists, capabilities: set<string>, strict: bool, cid: Id,
    graph0: Neighbours, reverse0: Neighbours, ghost E: Edges, ghost from: set<Id>)
    returns (missing: Option<string>, graph: Neighbours, reverse: Neighbours)
    requires forall c, p :: Successor(index, c, p) <==> p in Providers(ms, c)
    requires forall c :: c in index ==> index[c] != []
    requires Represents(graph0, reverse0, E + Into(from, cid)) && cid in reverse0
    ensures missing.Some? ==> strict && missing.value in capabilities && Providers(ms, missing.value) == {}
    ensures missing.None? ==>
              && (strict ==> forall c :: c in capabilities ==> Providers(ms, c) != {})
              && Represents(graph, reverse, E + Into(from + Supplying(ms, capabilities, cid), cid))
              && graph0.Keys <= graph.Keys && reverse.Keys == reverse0.Keys
  {
    graph, reverse := graph0, reverse0;
    var pending := capabilities;
    ghost var done: set<string> := {};
    assert from + Supplying(ms, {}, cid) == from;
    while pending != {}
      invariant done + pending == capabilities
      invariant strict ==> forall c :: c in done ==> Providers(ms, c) != {}
      invariant Represents(graph, reverse, E + Into(from + Supplying(ms, done, cid), cid))
      invariant graph0.Keys <= graph.Keys && reverse.Keys == reverse0.Keys
      decreases pending
    {
      var c :| c in pending;
      pending := pending - {c};
      var providers := if c in index then index[c] else [];
      assert forall p :: p in providers <==> Successor(index, c, p);
      if providers == [] && strict {
        return Some(c), graph, reverse;
      }
      assert providers != [] ==> providers[0] in Providers(ms, c);
      ghost var before := from + Supplying(ms, done, cid);
      graph, reverse := AddProviders(graph, reverse, providers, cid, E, before);
      SupplyingOneMore(ms, done, c, cid, providers);
      assert before + Others(providers, cid) == from + Supplying(ms, done + {c}, cid);
      done := done + {c};
    }
    missing := None;
  }

  lemma DependenciesSplit(ms: seq<ComponentManifest>, m: ComponentManifest)
    ensures Dependencies(ms, m)
            == (set d | d in m.depComponents)
               + Supplying(ms, (set c | c in m.depCapabilities), m.ResolvedId())
               + Supplying(ms, m.required, m.ResolvedId())
  {
    var declared := set c | c in m.depCapabilities;
    forall p: ComponentManifest
      ensures (exists c :: c in p.provided && Wants(m, c))
        <==> p.provided * declared != {} || p.provided * m.required != {}
    {
      if c :| c in p.provided && Wants(m, c) {
        assert c in p.provided * declared || c in p.provided * m.required;
      }
      if p.provided * declared != {} {
        var c :| c in p.provided * declared;
        assert c in p.provided && Wants(m, c);
      }
      if p.provided * m.required != {} {
        var c :| c in p.provided * m.required;
        assert c in p.provided && Wants(m, c);
      }
    }
  }

  /** Edges from the components a manifest names. */
  method AddComponents(
    ms: seq<ComponentManifest>, m: ComponentManifest, graph0: Neighbours, reverse0: Neighbours, ghost E: Edges)
    returns (missing: Option<string>, graph: Neighbours, reverse: Neighbours)
    requires Represents(graph0, reverse0, E) && m.ResolvedId() in reverse0
    ensures missing.Some? ==> MissesComponent(ms, m, missing.value)
    ensures missing.None? ==>
              && (forall d :: d in m.depComponents ==> d in IdsOf(ms))
              && Represents(graph, reverse, E + Into((set d | d in m.depComponents), m.ResolvedId()))
              && graph0.Keys <= graph.Keys && reverse.Keys == reverse0.Keys
  {
    var cid, ids := m.ResolvedId(), IdsOf(ms);
    graph, reverse := graph0, reverse0;
    ghost var from: set<Id> := {};
    assert E + Into(from, cid) == E;
    for k := 0 to |m.depComponents|
      invariant from == set d | d in m.depComponents[..k]
      invariant forall j :: 0 <= j < k ==> m.depComponents[j] in ids
      invariant Represents(graph, reverse, E + Into(from, cid))
      invariant graph0.Keys <= graph.Keys && reverse.Keys == reverse0.Keys
    {
      var d := m.depComponents[k];
      assert m.depComponents[..k + 1] == m.depComponents[..k] + [d];
      if d !in ids {
        return Some(d), graph, reverse;
      }
      graph, reverse := AddEdge(graph, reverse, d, cid, E, from);
      from := from + {d};
    }
    assert m.depComponents[..|m.depComponents|] == m.depComponents;
    missing := None;
  }

  /** The edges one manifest contributes; a missing dependency ends the resolution. */
  method Connect(
    ms: seq<ComponentManifest>, m: ComponentManifest, index: AdjacencyLists,
    graph0: Neighbours, reverse0: Neighbours, ghost E: Edges)
    returns (missing: Option<string>, graph: Neighbours, reverse: Neighbours)
    requires forall c, p :: Successor(index, c, p) <==> p in Providers(ms, c)
    requires forall c :: c in index ==> index[c] != []
    requires Represents(graph0, reverse0, E)
    ensures missing.Some? ==> Misses(ms, m, missing.value)
    ensures missing.None? ==>
              && Satisfied(ms, m)
              && Represents(graph, reverse, E + Into(Dependencies(ms, m), m.ResolvedId()))
              && graph0.Keys <= graph.Keys && reverse.Keys == reverse0.Keys + {m.ResolvedId()}
  {
    var cid := m.ResolvedId();
    graph := if cid in graph0 then graph0 else graph0[cid := {}];
    reverse := if cid in reverse0 then reverse0 else reverse0[cid := {}];
    RepresentsEmpty(graph0, reverse0, E, cid);
    ghost var from := set d | d in m.depComponents;
    missing, graph, reverse := AddComponents(ms, m, graph, reverse, E);
    if missing.Some? {
      return;
    }
    var declared := set c | c in m.depCapabilities;
    missing, graph, reverse := AddCapabilities(ms, index, declared, true, cid, graph, reverse, E, from);
    if missing.Some? {
      return;
    }
    missing, graph, reverse := AddCapabilities(ms, index, m.required, false, cid, graph, reverse, E,
      from + Supplying(ms, declared, cid));
    DependenciesSplit(ms, m);
    assert from + Supplying(ms, declared, cid) + Supplying(ms, m.required, cid) == Dependencies(ms, m);
  }

  lemma RepresentsEmpty(graph: Neighbours, reverse: Neighbours, E: Edges, c: Id)
    requires Represents(graph, reverse, E)
    ensures Represents(if c in graph then graph else graph[c := {}],
                       if c in reverse then reverse else reverse[c := {}], E)
  {
    assert c !in graph ==> SuccessorsOf(E, c) == {} by { assert Of(graph, c) == SuccessorsOf(E, c); }
    assert c !in reverse ==> Predecessors(E, c) == {} by { assert Of(reverse, c) == Predecessors(E, c); }
    forall p ensures Of(if c in graph then graph else graph[c := {}], p) == SuccessorsOf(E, p) {
      assert Of(graph, p) == SuccessorsOf(E, p);
    }
    forall p ensures Of(if c in reverse then reverse else reverse[c := {}], p) == Predecessors(E, p) {
      assert Of(reverse, p) == Predecessors(E, p);
    }
  }

  /** Edges of the manifests looked at so far, against all of them. */
  ghost function EdgesOfSome(ms: seq<ComponentManifest>, some: seq<ComponentManifest>): Edges {
    set m, d | m in some && d in Dependencies(ms, m) :: (d, m.ResolvedId())
  }

  lemma EdgesOneMore(ms: seq<ComponentManifest>, some: seq<ComponentManifest>, m: ComponentManifest)
    ensures EdgesOfSome(ms, some + [m]) == EdgesOfSome(ms, some) + Into(Dependencies(ms, m), m.ResolvedId())
  {
  }

  method BuildGraph(ms: seq<ComponentManifest>)
    returns (missing: Option<(Id, string)>, graph: Neighbours, reverse: Neighbours)
    ensures missing.Some? <==> !Complete(ms)
    ensures missing.Some? ==> exists m :: m in ms && m.ResolvedId() == missing.value.0 && Misses(ms, m, missing.value.1)
    ensures missing.None? ==> Represents(graph, reverse, DependencyEdges(ms)) && reverse.Keys == IdsOf(ms)
  {
    var index := BuildCapabilityIndex(ms);
    graph, reverse := map[], map[];
    for k := 0 to |ms|
      invariant forall m :: m in ms[..k] ==> Satisfied(ms, m)
      invariant Represents(graph, reverse, EdgesOfSome(ms, ms[..k]))
      invariant reverse.Keys == IdsOf(ms[..k])
    {
      assert ms[..k + 1] == ms[..k] + [ms[k]];
      ghost var E := EdgesOfSome(ms, ms[..k]);
      EdgesOneMore(ms, ms[..k], ms[k]);
      var what: Option<string>;
      what, graph, reverse := Connect(ms, ms[k], index, graph, reverse, E);
      if what.Some? {
        assert ms[k] in ms && Misses(ms, ms[k], what.value) && !Satisfied(ms, ms[k]);
        return Some((ms[k].ResolvedId(), what.value)), graph, reverse;
      }
    }
    assert ms[..|ms|] == ms;
    missing := None;
  }

  lemma CompleteEndpoints(ms: seq<ComponentManifest>)
    requires Complete(ms)
    ensures forall e :: e in DependencyEdges(ms) ==> e.0 in IdsOf(ms) && e.1 in IdsOf(ms)
  {
    forall m, d | m in ms && d in Dependencies(ms, m) ensures d in IdsOf(ms) {
      assert Satisfied(ms, m);
    }
  }

  // ---------------------------------------------------------------- the sort

  /** Each node still lacks its predecessors that are not done; `c` counts as done for `some` nodes. */
  ghost predicate Lacking(remaining: Neighbours, ids: set<Id>, E: Edges, done: set<Id>, c: Id, some: seq<Id>) {
    remaining.Keys == ids &&
    forall x :: x in ids ==> remaining[x] == Predecessors(E, x) - done - (if x in some then {c} else {})
  }

  lemma LackingOneMore(remaining: Neighbours, ids: set<Id>, E: Edges, done: set<Id>, c: Id, some: seq<Id>, s: Id)
    requires Lacking(remaining, ids, E, done, c, some) && s in ids && s !in some
    ensures Lacking(remaining[s := remaining[s] - {c}], ids, E, done, c, some + [s])
  {
  }

  /** Once all its successors have been told, `c` is done for everyone. */
  lemma LackingAll(remaining: Neighbours, ids: set<Id>, E: Edges, done: set<Id>, c: Id, some: seq<Id>)
    requires Lacking(remaining, ids, E, done, c, some)
    requires forall x :: x in some <==> x in SuccessorsOf(E, c)
    ensures Lacks(remaining, ids, E, done + {c})
  {
    forall x | x in ids ensures remaining[x] == Predecessors(E, x) - (done + {c}) {
      assert x in SuccessorsOf(E, c) <==> c in Predecessors(E, x);
    }
  }

  lemma ReleasedNext(E: Edges, done: set<Id>, c: Id, some: seq<Id>, s: Id, released: seq<Id>, left: set<Id>)
    requires s in SuccessorsOf(E, c) && Ascending(some + [s]) && Ascending(released)
    requires forall x :: x in released <==> x in some && x in Released(E, c, done)
    requires left == Predecessors(E, s) - done - {c}
    ensures var more := if left == {} then released + [s] else released;
            Ascending(more) && forall x :: x in more <==> x in some + [s] && x in Released(E, c, done)
  {
    assert left == {} <==> s in Released(E, c, done);
    forall i | 0 <= i < |released| ensures Lt(released[i], s) {
      assert released[i] in some;
      var j :| 0 <= j < |some| && some[j] == released[i];
      assert (some + [s])[j] == some[j] && (some + [s])[|some|] == s;
    }
  }

  lemma TakeOneMore(s: seq<Id>, k: nat)
    requires k < |s| && Ascending(s)
    ensures s[..k + 1] == s[..k] + [s[k]] && s[k] in s && s[k] !in s[..k]
    ensures Ascending(s[..k + 1])
  {
  }

  lemma LackingStart(remaining: Neighbours, ids: set<Id>, E: Edges, done: set<Id>, c: Id)
    requires Lacks(remaining, ids, E, done)
    ensures Lacking(remaining, ids, E, done, c, [])
  {
  }

  /** After `c` its successors lose it as a predecessor; those left without any are queued in sorted order. */
  method Release(
    graph: Neighbours, remaining0: Neighbours, c: Id, ghost E: Edges, ghost ids: set<Id>, ghost done: set<Id>)
    returns (remaining: Neighbours, released: seq<Id>)
    requires Of(graph, c) == SuccessorsOf(E, c) && SuccessorsOf(E, c) <= ids
    requires Lacking(remaining0, ids, E, done, c, [])
    ensures Lacks(remaining, ids, E, done + {c})
    ensures released == Sorted(Released(E, c, done))
  {
    remaining, released := remaining0, [];
    var successors := SortIds(Of(graph, c));
    assert successors[..0] == [];
    for k := 0 to |successors|
      invariant Lacking(remaining, ids, E, done, c, successors[..k])
      invariant Ascending(released)
      invariant forall x :: x in released <==> x in successors[..k] && x in Released(E, c, done)
    {
      var s := successors[k];
      TakeOneMore(successors, k);
      LackingOneMore(remaining, ids, E, done, c, successors[..k], s);
      ReleasedNext(E, done, c, successors[..k], s, released, remaining[s] - {c});
      remaining := remaining[s := remaining[s] - {c}];
      if remaining[s] == {} {
        released := released + [s];
      }
    }
    assert successors[..|successors|] == successors;
    LackingAll(remaining, ids, E, done, c, successors);
    AscendingUnique(released, Sorted(Released(E, c, done)));
  }

  lemma KahnUnfolds(ids: set<Id>, E: Edges, queue: seq<Id>, done: set<Id>, ordered: seq<Id>)
    requires KahnState(ids, E, queue, done) && queue != []
    ensures var next := queue[1..] + Sorted(Released(E, queue[0], done));
            && KahnState(ids, E, next, done + {queue[0]})
            && queue[0] in ids && queue[0] !in done
            && ordered + KahnFrom(ids, E, queue, done)
               == (ordered + [queue[0]]) + KahnFrom(ids, E, next, done + {queue[0]})
  {
    var next, later := KahnFromUnfold(ids, E, queue, done);
    PrependOne(ordered, queue[0], later);
  }

  lemma PrependOne(a: seq<Id>, x: Id, b: seq<Id>)
    ensures a + ([x] + b) == (a + [x]) + b
  {
  }

  method KahnLoop(graph: Neighbours, reverse: Neighbours, ghost E: Edges)
    returns (ordered: seq<Id>, remaining: Neighbours)
    requires Represents(graph, reverse, E)
    requires forall e :: e in E ==> e.0 in reverse.Keys && e.1 in reverse.Keys
    ensures ordered == Kahn(reverse.Keys, E)
    ensures remaining.Keys == reverse.Keys
    ensures forall c :: c in remaining ==> remaining[c] == Predecessors(E, c) - (set x | x in ordered)
  {
    ghost var ids := reverse.Keys;
    var sources := set c | c in reverse && reverse[c] == {};
    SourcesRepresented(graph, reverse, E);
    var queue := SortIds(sources);
    ghost var done: set<Id> := {};
    ordered, remaining := [], reverse;
    SortingStart(ids, E);
    while queue != []
      invariant Sorting(ids, E, queue, done, ordered)
      invariant Lacks(remaining, ids, E, done)
      decreases ids - done
    {
      var c := queue[0];
      SuccessorsInside(ids, E, c);
      LackingStart(remaining, ids, E, done, c);
      assert Of(graph, c) == SuccessorsOf(E, c);
      var released;
      remaining, released := Release(graph, remaining, c, E, ids, done);
      SortingStep(ids, E, queue, done, ordered);
      ordered, queue, done := ordered + [c], queue[1..] + released, done + {c};
    }
    SortingEnd(ids, E, done, ordered);
  }

  /** Each node still lacks exactly its predecessors that are not done. */
  ghost predicate Lacks(remaining: Neighbours, ids: set<Id>, E: Edges, done: set<Id>) {
    remaining.Keys == ids && forall x :: x in ids ==> remaining[x] == Predecessors(E, x) - done
  }

  /** What is listed so far, followed by what the queue still leads to, is Kahn's order. */
  ghost predicate Sorting(ids: set<Id>, E: Edges, queue: seq<Id>, done: set<Id>, ordered: seq<Id>) {
    && (forall e :: e in E ==> e.0 in ids && e.1 in ids)
    && KahnState(ids, E, queue, done)
    && done == (set x | x in ordered)
    && ordered + KahnFrom(ids, E, queue, done) == Kahn(ids, E)
  }

  lemma SortingStart(ids: set<Id>, E: Edges)
    requires forall e :: e in E ==> e.0 in ids && e.1 in ids
    ensures Sorting(ids, E, Sorted(Sources(ids, E)), {}, [])
  {
    KahnStart(ids, E);
    assert [] + Kahn(ids, E) == Kahn(ids, E);
  }

  lemma SortingEnd(ids: set<Id>, E: Edges, done: set<Id>, ordered: seq<Id>)
    requires Sorting(ids, E, [], done, ordered)
    ensures ordered == Kahn(ids, E) && done == set x | x in ordered
  {
  }

  lemma SortingStep(ids: set<Id>, E: Edges, queue: seq<Id>, done: set<Id>, ordered: seq<Id>)
    requires Sorting(ids, E, queue, done, ordered) && queue != []
    ensures queue[0] in ids && queue[0] !in done
    ensures Sorting(ids, E, queue[1..] + Sorted(Released(E, queue[0], done)), done + {queue[0]}, ordered + [queue[0]])
  {
    KahnUnfolds(ids, E, queue, done, ordered);
    SetOneMore(ordered, queue[0]);
  }

  lemma SetOneMore(s: seq<Id>, c: Id)
    ensures (set x | x in s + [c]) == (set x | x in s) + {c}
  {
  }

  lemma SourcesRepresented(graph: Neighbours, reverse: Neighbours, E: Edges)
    requires Represents(graph, reverse, E)
    ensures (set c | c in reverse && reverse[c] == {}) == Sources(reverse.Keys, E)
    ensures forall c :: c in reverse ==> reverse[c] == Predecessors(E, c)
  {
    forall c | c in reverse ensures reverse[c] == Predecessors(E, c) {
      assert Of(reverse, c) == Predecessors(E, c);
    }
  }

  lemma SuccessorsInside(ids: set<Id>, E: Edges, c: Id)
    requires forall e :: e in E ==> e.0 in ids && e.1 in ids
    ensures SuccessorsOf(E, c) <= ids
  {
  }

  /** The manifest an id stands for: the last one given, as in a dictionary built from the list. */
  function ById(ms: seq<ComponentManifest>): (r: map<Id, ComponentManifest>)
    ensures r.Keys == IdsOf(ms)
    ensures forall c :: c in r ==> r[c] in ms && r[c].ResolvedId() == c
  {
    if ms == [] then map[]
    else
      var last := ms[|ms| - 1];
      assert ms == ms[..|ms| - 1] + [last];
      ById(ms[..|ms| - 1])[last.ResolvedId() := last]
  }

  function Pick(byId: map<Id, ComponentManifest>, order: seq<Id>): seq<ComponentManifest>
    requires forall c :: c in order ==> c in byId
  {
    seq(|order|, i requires 0 <= i < |order| => assert order[i] in order; byId[order[i]])
  }

  /** The order returned for a complete acyclic set of manifests: a function of its elements. */
  ghost function BootOrderOf(ms: seq<ComponentManifest>): seq<ComponentManifest>
    requires Complete(ms)
  {
    CompleteEndpoints(ms);
    KahnTopological(IdsOf(ms), DependencyEdges(ms));
    Pick(ById(ms), Kahn(IdsOf(ms), DependencyEdges(ms)))
  }

  /**
   * `resolve_boot_order`: a missing dependency if there is one; otherwise an
   * order exactly when the dependency relation has no cycle, and the nodes on
   * or downstream of a cycle when it has.
   */
  method ResolveBootOrder(ms: seq<ComponentManifest>) returns (r: Resolution)
    ensures r.MissingDependency? <==> !Complete(ms)
    ensures r.MissingDependency? ==> exists m :: m in ms && m.ResolvedId() == r.component && Misses(ms, m, r.missing)
    ensures Complete(ms) ==> (r.Ordered? <==> Acyclic(DependencyEdges(ms)))
    ensures r.Ordered? ==> r.order == BootOrderOf(ms)
    ensures r.CircularDependency? ==>
              && Distinct(r.nodes)
              && forall x :: x in r.nodes <==> x in IdsOf(ms) && DownstreamOfCycle(DependencyEdges(ms), x)
  {
    var byId := ById(ms);
    var missing, graph, reverse := BuildGraph(ms);
    if missing.Some? {
      return MissingDependency(missing.value.0, missing.value.1);
    }
    ghost var E, ids := DependencyEdges(ms), IdsOf(ms);
    CompleteEndpoints(ms);
    var ordered, remaining := KahnLoop(graph, reverse, E);
    KahnTopological(ids, E);
    KahnComplete(ids, E);
    if |ordered| != |byId| {
      var nodes := Stuck(ms, remaining);
      forall x ensures x in nodes <==> x in ids && DownstreamOfCycle(E, x) {
        StuckMeaning(ids, E, ordered, x);
      }
      return CircularDependency(nodes);
    }
    r := Ordered(Pick(byId, ordered));
  }

  /** A node keeps a predecessor exactly when it is never listed. */
  lemma StuckMeaning(ids: set<Id>, E: Edges, ordered: seq<Id>, x: Id)
    requires forall e :: e in E ==> e.0 in ids && e.1 in ids
    requires ordered == Kahn(ids, E)
    ensures x in ids && Predecessors(E, x) - (set y | y in ordered) != {} <==> x in ids && DownstreamOfCycle(E, x)
  {
    KahnLists(ids, E, x);
    KahnTopological(ids, E);
    if x in ordered {
      var i :| 0 <= i < |ordered| && ordered[i] == x;
      forall p | p in Predecessors(E, x) ensures p in ordered {
        assert (p, ordered[i]) in E;
        assert p in ordered[..i];
      }
    } else if x in ids {
      var p := UnlistedWaits(ids, E, ordered, x);
      assert p in Predecessors(E, x) - (set y | y in ordered);
    }
  }

  /** `[cid for cid, preds in remaining.items() if preds]`, in order of first appearance. */
  method Stuck(ms: seq<ComponentManifest>, remaining: Neighbours) returns (nodes: seq<Id>)
    requires remaining.Keys == IdsOf(ms)
    ensures Distinct(nodes) && forall x :: x in nodes <==> x in remaining && remaining[x] != {}
  {
    nodes := [];
    for k := 0 to |ms|
      invariant Distinct(nodes)
      invariant forall x :: x in nodes <==> x in IdsOf(ms[..k]) && x in remaining && remaining[x] != {}
    {
      assert ms[..k + 1] == ms[..k] + [ms[k]];
      assert IdsOf(ms[..k + 1]) == IdsOf(ms[..k]) + {ms[k].ResolvedId()};
      var c := ms[k].ResolvedId();
      if c !in nodes && remaining[c] != {} {
        nodes := nodes + [c];
      }
    }
    assert ms[..|ms|] == ms;
  }

  // ------------------------------------------------------- what the order is

  predicate DistinctIds(ms: seq<ComponentManifest>) {
    forall i, j :: 0 <= i < j < |ms| ==> ms[i].ResolvedId() != ms[j].ResolvedId()
  }

  /** Every dependency is activated before its dependant. */
  lemma DependenciesFirst(ms: seq<ComponentManifest>, i: nat, d: Id)
    requires Complete(ms) && i < |BootOrderOf(ms)|
    requires d in Dependencies(ms, BootOrderOf(ms)[i])
    ensures exists j :: 0 <= j < i && BootOrderOf(ms)[j].ResolvedId() == d
  {
    CompleteEndpoints(ms);
    var E, ids := DependencyEdges(ms), IdsOf(ms);
    var order := Kahn(ids, E);
    KahnTopological(ids, E);
    var m := BootOrderOf(ms)[i];
    assert order[i] in order;
    assert m in ms && m.ResolvedId() == order[i];
    assert (d, order[i]) in E;
    var j :| 0 <= j < i && order[..i][j] == d;
    assert order[j] in order;
    assert BootOrderOf(ms)[j].ResolvedId() == d;
  }

  /** With distinct ids and no cycle the order is a permutation of the manifests. */
  lemma OrderIsPermutation(ms: seq<ComponentManifest>)
    requires Complete(ms) && Acyclic(DependencyEdges(ms)) && DistinctIds(ms)
    ensures multiset(BootOrderOf(ms)) == multiset(ms)
  {
    CompleteEndpoints(ms);
    var E, ids := DependencyEdges(ms), IdsOf(ms);
    var order, booted := Kahn(ids, E), BootOrderOf(ms);
    KahnTopological(ids, E);
    KahnComplete(ids, E);
    forall i | 0 <= i < |order| ensures booted[i] in ms && booted[i].ResolvedId() == order[i] {
      assert order[i] in order;
    }
    forall m ensures m in booted <==> m in ms {
      if m in ms {
        assert m.ResolvedId() in order;
        var i :| 0 <= i < |order| && order[i] == m.ResolvedId();
        SameIdSame(ms, booted[i], m);
      }
    }
    SameElementsSameMultiset(booted, ms);
  }

  lemma SameIdSame(ms: seq<ComponentManifest>, a: ComponentManifest, b: ComponentManifest)
    requires DistinctIds(ms) && a in ms && b in ms && a.ResolvedId() == b.ResolvedId()
    ensures a == b
  {
    var i :| 0 <= i < |ms| && ms[i] == a;
    var j :| 0 <= j < |ms| && ms[j] == b;
    assert i == j;
  }

  lemma {:induction false} CountDistinct<T>(s: seq<T>, x: T)
    requires forall i, j :: 0 <= i < j < |s| ==> s[i] != s[j]
    ensures multiset(s)[x] == if x in s then 1 else 0
  {
    if s == [] {
    } else {
      var init, last := s[..|s| - 1], s[|s| - 1];
      assert s == init + [last];
      CountDistinct(init, x);
    }
  }

  lemma SameElementsSameMultiset<T>(a: seq<T>, b: seq<T>)
    requires forall i, j :: 0 <= i < j < |a| ==> a[i] != a[j]
    requires forall i, j :: 0 <= i < j < |b| ==> b[i] != b[j]
    requires forall x :: x in a <==> x in b
    ensures multiset(a) == multiset(b)
  {
    forall x ensures multiset(a)[x] == multiset(b)[x] {
      CountDistinct(a, x);
      CountDistinct(b, x);
    }
  }

  /**
   * Determinism: permuting manifests with distinct ids changes neither whether
   * they resolve nor the order they resolve to.
   */
  lemma OrderIndependent(these: seq<ComponentManifest>, those: seq<ComponentManifest>)
    requires multiset(these) == multiset(those) && DistinctIds(these) && DistinctIds(those)
    ensures IdsOf(these) == IdsOf(those) && DependencyEdges(these) == DependencyEdges(those)
    ensures Complete(these) <==> Complete(those)
    ensures Complete(these) ==> BootOrderOf(these) == BootOrderOf(those)
  {
    assert forall m :: m in these <==> m in multiset(these);
    assert forall m :: m in those <==> m in multiset(those);
    assert forall m :: m in these <==> m in those;
    SameElementsSameGraph(these, those);
    SameElementsSameIndex(these, those);
  }

  lemma SameElementsSameIndex(these: seq<ComponentManifest>, those: seq<ComponentManifest>)
    requires (forall m :: m in these <==> m in those) && DistinctIds(those)
    ensures ById(these) == ById(those)
  {
    assert IdsOf(these) == IdsOf(those);
    var a, b := ById(these), ById(those);
    forall c | c in a ensures a[c] == b[c] {
      SameIdSame(those, a[c], b[c]);
    }
    assert a == b;
  }

  lemma SameElementsSameGraph(these: seq<ComponentManifest>, those: seq<ComponentManifest>)
    requires forall m :: m in these <==> m in those
    ensures IdsOf(these) == IdsOf(those) && DependencyEdges(these) == DependencyEdges(those)
    ensures Complete(these) <==> Complete(those)
  {
    assert IdsOf(these) == IdsOf(those);
    assert forall c :: Providers(these, c) == Providers(those, c);
    assert forall m :: Dependencies(these, m) == Dependencies(those, m);
    assert forall m :: Satisfied(these, m) <==> Satisfied(those, m);
  }
}
