/** The memoised depth-first search behind the assembly index. */
module LongestPath {
  import opened Ids
  import opened Digraph
  import opened CycleCheck

  /** A walk whose nodes are distinct, except that the last may repeat one. */
  ghost predicate NearlySimple(E: Edges, w: seq<Id>) {
    Walk(E, w) && Distinct(w[..|w| - 1])
  }

  /** No walk from `v` has more than `n` nodes. */
  ghost predicate Bounds(E: Edges, v: Id, n: int) {
    forall w :: Walk(E, w) && w[0] == v ==> |w| <= n
  }

  /** A walk that comes back to its start. */
  ghost predicate ClosedWalk(E: Edges, w: seq<Id>) {
    Walk(E, w) && |w| > 1 && w[0] == w[|w| - 1]
  }

  /** `w` witnesses a depth of `n` for `v`: all its nodes but the last are already explored. */
  ghost predicate Witness(E: Edges, explored: set<Id>, v: Id, n: int, w: seq<Id>) {
    NearlySimple(E, w) && w[0] == v && |w| == n && forall x :: x in w[..|w| - 1] ==> x in explored
  }

  lemma BoundsStep(E: Edges, v: Id, n: int)
    requires n >= 0
    requires forall c :: (v, c) in E ==> Bounds(E, c, n)
    ensures Bounds(E, v, n + 1)
  {
    forall w | Walk(E, w) && w[0] == v ensures |w| <= n + 1 {
      if |w| > 1 {
        assert (v, w[1]) in E;
        assert Walk(E, w[1..]);
      }
    }
  }

  lemma PrependWitness(E: Edges, explored: set<Id>, v: Id, c: Id, n: int, w: seq<Id>)
    requires (v, c) in E && Witness(E, explored, c, n, w) && v !in explored
    ensures Witness(E, explored + {v}, v, n + 1, [v] + w)
  {
    var x := [v] + w;
    assert forall i, j :: 0 <= i && j == i + 1 < |x| ==> x[j] == w[j - 1] && (i >= 1 ==> x[i] == w[i - 1]);
    var before, inner := x[..|x| - 1], w[..|w| - 1];
    assert before == [v] + inner;
    forall i, j | 0 <= i < j < |before| ensures before[i] != before[j] {
      assert before[j] == inner[j - 1] && inner[j - 1] in explored;
      if i >= 1 { assert before[i] == inner[i - 1]; }
    }
  }

  lemma WitnessGrows(E: Edges, explored: set<Id>, more: set<Id>, v: Id, n: int, w: seq<Id>)
    requires Witness(E, explored, v, n, w) && explored <= more
    ensures Witness(E, more, v, n, w)
  {
  }

  lemma WalkSuffix(E: Edges, w: seq<Id>, i: nat)
    requires Walk(E, w) && i < |w|
    ensures Walk(E, w[i..])
  {
  }

  type Depths = map<Id, nat>

  /** Some walk witnesses a depth of `n` for `v`. */
  ghost predicate HasDepth(E: Edges, explored: set<Id>, v: Id, n: int) {
    exists w :: Witness(E, explored, v, n, w)
  }

  /** What the memo knows: real walks, and upper bounds when there is no cycle. */
  ghost predicate MemoSound(E: Edges, visited: Depths) {
    && (forall v :: v in visited ==> HasDepth(E, visited.Keys, v, visited[v]))
    && (Acyclic(E) ==> forall v :: v in visited ==> Bounds(E, v, visited[v]))
  }

  /** As long as no grey node was met, explored nodes are finished after their successors. */
  ghost predicate Ordered(E: Edges, explored: set<Id>, finished: seq<Id>, cycle: seq<Id>) {
    cycle == [] ==> SuccessorsFirst(E, finished) && forall a :: a in finished <==> a in explored
  }

  /** The grey nodes form a walk, the stack of the recursion. */
  ghost predicate Stacked(E: Edges, visiting: set<Id>, path: seq<Id>) {
    (forall a :: a in path <==> a in visiting) && (path != [] ==> Walk(E, path))
  }

  ghost predicate Paid(visited: Depths, cycle: seq<Id>) {
    exists v :: v in visited && visited[v] >= |cycle|
  }

  /** How deep a result must be when a cycle was met below it and is still to be paid for. */
  ghost predicate Owes(visited: Depths, height: nat, cycle: seq<Id>, closing: nat, d: int) {
    cycle != [] && !Paid(visited, cycle) ==> closing < height && d >= |cycle| - (height - closing)
  }

  /** A closed walk, once met, is paid for by a memo entry or will be by the grey node it closes at. */
  ghost predicate Accounted(E: Edges, visited: Depths, height: nat, cycle: seq<Id>, closing: nat) {
    cycle != [] ==> ClosedWalk(E, cycle) && (Paid(visited, cycle) || closing < height)
  }

  /** A successor already dealt with: explored no deeper than `best`, or grey. */
  ghost predicate ChildDone(visited: Depths, visiting: set<Id>, cycle: seq<Id>, child: Id, best: nat) {
    (child in visited && visited[child] <= best) || (child in visiting && cycle != [])
  }

  ghost predicate AllDone(E: Edges, visited: Depths, visiting: set<Id>, cycle: seq<Id>, node: Id, best: nat) {
    forall b :: (node, b) in E ==> ChildDone(visited, visiting, cycle, b, best)
  }

  ghost predicate Deepest(E: Edges, explored: set<Id>, node: Id, best: nat) {
    best > 0 ==> exists c :: (node, c) in E && HasDepth(E, explored, c, best)
  }

  predicate Extends(before: Depths, after: Depths) {
    before.Keys <= after.Keys && forall v :: v in before ==> after[v] == before[v]
  }

  /** Entries added since are no deeper than `d`. */
  predicate AddedUpTo(before: Depths, after: Depths, d: int) {
    forall v :: v in after && v !in before ==> after[v] <= d
  }

  // ------------------------------------------------------ a node is concluded

  lemma ConcludedDepth(E: Edges, explored: set<Id>, node: Id, best: nat)
    requires node !in explored && Deepest(E, explored, node, best)
    ensures HasDepth(E, explored + {node}, node, best + 1)
  {
    if best > 0 {
      var c :| (node, c) in E && HasDepth(E, explored, c, best);
      var w :| Witness(E, explored, c, best, w);
      PrependWitness(E, explored, node, c, best, w);
    } else {
      assert Witness(E, explored + {node}, node, 1, [node]);
    }
  }

  lemma HasDepthGrows(E: Edges, explored: set<Id>, more: set<Id>, v: Id, n: int)
    requires HasDepth(E, explored, v, n) && explored <= more
    ensures HasDepth(E, more, v, n)
  {
    var w :| Witness(E, explored, v, n, w);
    WitnessGrows(E, explored, more, v, n, w);
  }

  lemma ConcludedMemo(
    E: Edges, visited: Depths, visiting: set<Id>, path: seq<Id>, cycle: seq<Id>, closing: nat, node: Id, best: nat)
    requires MemoSound(E, visited) && Accounted(E, visited, |path|, cycle, closing)
    requires node !in visited && Deepest(E, visited.Keys, node, best)
    requires AllDone(E, visited, visiting, cycle, node, best)
    ensures MemoSound(E, visited[node := best + 1])
  {
    var after := visited[node := best + 1];
    assert after.Keys == visited.Keys + {node};
    ConcludedDepth(E, visited.Keys, node, best);
    forall v | v in after ensures HasDepth(E, after.Keys, v, after[v]) {
      if v != node { HasDepthGrows(E, visited.Keys, after.Keys, v, visited[v]); }
    }
    if Acyclic(E) {
      if cycle != [] { ClosedWalkIsCycle(E, cycle); }
      forall c | (node, c) in E ensures Bounds(E, c, best) {
        assert ChildDone(visited, visiting, cycle, c, best);
      }
      BoundsStep(E, node, best);
    }
  }

  lemma ConcludedOrder(
    E: Edges, visited: Depths, visiting: set<Id>, finished: seq<Id>, cycle: seq<Id>, node: Id, best: nat)
    requires Ordered(E, visited.Keys, finished, cycle) && AllDone(E, visited, visiting, cycle, node, best)
    ensures Ordered(E, visited.Keys + {node}, if cycle == [] then finished + [node] else finished, cycle)
  {
    if cycle == [] {
      forall b | (node, b) in E ensures b in finished {
        assert ChildDone(visited, visiting, cycle, b, best);
      }
      AppendKeepsOrder(E, finished, node);
    }
  }

  /** The node the cycle closes at pays for it; the nodes above it pass the debt down. */
  lemma ConcludedDebt(E: Edges, visited: Depths, height: nat, cycle: seq<Id>, closing: nat, node: Id, best: nat)
    requires height > 0 && node !in visited
    requires Accounted(E, visited, height, cycle, closing)
    requires Owes(visited, height, cycle, closing, best) || Paid(visited, cycle) || closing < height - 1
    ensures Accounted(E, visited[node := best + 1], height - 1, cycle, closing)
    ensures Owes(visited, height, cycle, closing, best) ==>
              Owes(visited[node := best + 1], height - 1, cycle, closing, best + 1)
  {
    var after := visited[node := best + 1];
    if cycle != [] {
      if Paid(visited, cycle) {
        var v :| v in visited && visited[v] >= |cycle|;
        assert v in after && after[v] >= |cycle|;
      } else if closing == height - 1 {
        assert node in after && after[node] >= |cycle|;
      }
    }
  }

  class DepthSearch {
    const successors: AdjacencyLists
    const universe: set<Id>
    ghost const E: Edges
    var visiting: set<Id>
    var visited: Depths
    ghost var path: seq<Id>
    ghost var finished: seq<Id>
    ghost var cycle: seq<Id>
    ghost var closing: nat

    constructor (successors: AdjacencyLists, universe: set<Id>, ghost E: Edges)
      requires Lists(successors, E)
      requires forall a, b :: (a, b) in E ==> a in universe && b in universe
      ensures Valid() && path == [] && cycle == [] && visited == map[]
      ensures this.universe == universe && this.E == E
    {
      this.successors, this.universe, this.E := successors, universe, E;
      visiting, visited, path, finished, cycle, closing := {}, map[], [], [], [], 0;
    }

    ghost predicate Valid()
      reads this
    {
      && Lists(successors, E)
      && (forall a, b :: (a, b) in E ==> a in universe && b in universe)
      && visiting <= universe && visited.Keys <= universe && visiting !! visited.Keys
      && Stacked(E, visiting, path) && MemoSound(E, visited)
      && Ordered(E, visited.Keys, finished, cycle) && Accounted(E, visited, |path|, cycle, closing)
    }

    ghost predicate Debt(d: int)
      reads this
    {
      Owes(visited, |path|, cycle, closing, d)
    }

    /** The nodes still white. */
    ghost function Unseen(): set<Id>
      reads this
    {
      universe - visiting - visited.Keys
    }

    method Depth(node: Id) returns (d: nat)
      requires Valid() && node in universe
      requires path != [] ==> (path[|path| - 1], node) in E
      modifies this
      ensures Valid() && visiting == old(visiting) && path == old(path)
      ensures Extends(old(visited), visited) && AddedUpTo(old(visited), visited, d)
      ensures HasDepth(E, visited.Keys, node, d)
      ensures if node in visiting then cycle != [] else node in visited && visited[node] == d
      ensures if old(cycle) == [] then Debt(d) else cycle == old(cycle) && closing == old(closing)
      decreases Unseen(), 1
    {
      if node in visited {
        return visited[node];
      }
      if node in visiting {
        NoteCycle(node);
        assert Witness(E, visited.Keys, node, 1, [node]);
        return 1;
      }
      d := Explore(node);
    }

    /** A grey node was met: remember the closed walk that leads back to it. */
    ghost method NoteCycle(node: Id)
      requires Valid() && node in visiting
      requires path != [] ==> (path[|path| - 1], node) in E
      modifies this`cycle, this`closing
      ensures Valid() && cycle != []
      ensures if old(cycle) == [] then Debt(1) else cycle == old(cycle) && closing == old(closing)
    {
      if cycle == [] {
        var i :| 0 <= i < |path| && path[i] == node;
        cycle, closing := path[i..] + [node], i;
        WalkSuffix(E, path, i);
        assert cycle[|cycle| - 2] == path[|path| - 1];
      }
    }

    method Explore(node: Id) returns (d: nat)
      requires Valid() && node in universe && node !in visiting && node !in visited
      requires path != [] ==> (path[|path| - 1], node) in E
      modifies this
      ensures Valid() && visiting == old(visiting) && path == old(path)
      ensures Extends(old(visited), visited) && AddedUpTo(old(visited), visited, d)
      ensures HasDepth(E, visited.Keys, node, d) && node in visited && visited[node] == d
      ensures if old(cycle) == [] then Debt(d) else cycle == old(cycle) && closing == old(closing)
      decreases Unseen(), 0
    {
      ghost var v0, c0 := visited, cycle;
      assert node in Unseen();
      Push(node);
      var best := VisitChildren(node, if node in successors then successors[node] else []);
      forall b | (node, b) in E ensures ChildDone(visited, visiting, cycle, b, best) {
        assert Successor(successors, node, b);
      }
      d := Conclude(node, best);
    }

    /** Depths of all successors, in list order; the deepest is kept. */
    method VisitChildren(node: Id, children: seq<Id>) returns (best: nat)
      requires Valid() && path != [] && path[|path| - 1] == node
      requires forall c :: c in children ==> (node, c) in E
      requires cycle == [] || Paid(visited, cycle) || closing < |path| - 1
      modifies this
      ensures Valid() && visiting == old(visiting) && path == old(path)
      ensures Extends(old(visited), visited) && AddedUpTo(old(visited), visited, best)
      ensures Deepest(E, visited.Keys, node, best)
      ensures forall c :: c in children ==> ChildDone(visited, visiting, cycle, c, best)
      ensures if old(cycle) == [] then Debt(best) else cycle == old(cycle) && closing == old(closing)
      decreases Unseen(), 3
    {
      ghost var white, v0, c0, k0 := Unseen(), visited, cycle, closing;
      best := 0;
      for i := 0 to |children|
        invariant Valid() && visiting == old(visiting) && path == old(path)
        invariant Extends(v0, visited) && AddedUpTo(v0, visited, best)
        invariant Deepest(E, visited.Keys, node, best)
        invariant forall j :: 0 <= j < i ==> ChildDone(visited, visiting, cycle, children[j], best)
        invariant if c0 == [] then Debt(best)
                  else cycle == c0 && closing == k0 && (Paid(visited, cycle) || closing < |path| - 1)
      {
        assert Unseen() <= white;
        ghost var v1, c1, b1 := visited, cycle, best;
        best := VisitChild(node, children[i], best);
        if c1 != [] && Paid(v1, c1) { PaidExtends(v1, visited, c1); }
        forall j | 0 <= j < i ensures ChildDone(visited, visiting, cycle, children[j], best) {
          ChildDoneStays(v1, visited, visiting, c1, cycle, children[j], b1, best);
        }
      }
    }

    method VisitChild(node: Id, child: Id, best: nat) returns (deeper: nat)
      requires Valid() && (node, child) in E
      requires path != [] && path[|path| - 1] == node
      requires Deepest(E, visited.Keys, node, best)
      requires cycle == [] || Debt(best) || Paid(visited, cycle) || closing < |path| - 1
      modifies this
      ensures Valid() && visiting == old(visiting) && path == old(path)
      ensures Extends(old(visited), visited) && AddedUpTo(old(visited), visited, deeper) && deeper >= best
      ensures Deepest(E, visited.Keys, node, deeper)
      ensures ChildDone(visited, visiting, cycle, child, deeper)
      ensures old(cycle) != [] ==> cycle == old(cycle) && closing == old(closing)
      ensures old(cycle) == [] || old(Debt(best)) ==> Debt(deeper)
      decreases Unseen(), 2
    {
      ghost var v0, c0, k0 := visited, cycle, closing;
      var below := Depth(child);
      deeper := if below > best then below else best;
      DeepestStays(E, v0.Keys, visited.Keys, node, best);
      if c0 != [] && Paid(v0, c0) { PaidExtends(v0, visited, c0); }
    }

    /** A white node turns grey. */
    ghost method PushGhost(node: Id)
      requires Stacked(E, visiting, path) && (path != [] ==> (path[|path| - 1], node) in E)
      modifies this`path
      ensures path == old(path) + [node] && Stacked(E, visiting + {node}, path)
    {
      path := path + [node];
    }

    method Push(node: Id)
      requires Valid() && node in universe && node !in visiting && node !in visited
      requires path != [] ==> (path[|path| - 1], node) in E
      modifies this`visiting, this`path
      ensures Valid() && visiting == old(visiting) + {node} && path == old(path) + [node]
    {
      PushGhost(node);
      visiting := visiting + {node};
    }

    /** A node whose successors are all dealt with leaves the stack and enters the memo. */
    method Conclude(node: Id, best: nat) returns (d: nat)
      requires Valid() && node in visiting
      requires path != [] && path[|path| - 1] == node && node !in path[..|path| - 1]
      requires AllDone(E, visited, visiting, cycle, node, best) && Deepest(E, visited.Keys, node, best)
      requires Debt(best) || Paid(visited, cycle) || closing < |path| - 1
      modifies this
      ensures Valid() && d == best + 1 && visited == old(visited)[node := d]
      ensures visiting == old(visiting) - {node} && path == old(path)[..|old(path)| - 1]
      ensures cycle == old(cycle) && closing == old(closing)
      ensures HasDepth(E, visited.Keys, node, d)
      ensures old(Debt(best)) ==> Debt(d)
    {
      d := best + 1;
      Concluded(E, visited, visiting, path, finished, cycle, closing, node, best);
      if cycle == [] {
        finished := finished + [node];
      }
      visiting, visited, path := visiting - {node}, visited[node := d], path[..|path| - 1];
    }
  }

  /** What concluding a node makes of the memo, the order, the debt and the stack. */
  lemma Concluded(
    E: Edges, visited: Depths, visiting: set<Id>, path: seq<Id>, finished: seq<Id>, cycle: seq<Id>, closing: nat,
    node: Id, best: nat)
    requires MemoSound(E, visited) && Ordered(E, visited.Keys, finished, cycle) && Stacked(E, visiting, path)
    requires Accounted(E, visited, |path|, cycle, closing) && node !in visited
    requires path != [] && path[|path| - 1] == node && node !in path[..|path| - 1]
    requires AllDone(E, visited, visiting, cycle, node, best) && Deepest(E, visited.Keys, node, best)
    requires Owes(visited, |path|, cycle, closing, best) || Paid(visited, cycle) || closing < |path| - 1
    ensures var after := visited[node := best + 1];
            && after.Keys == visited.Keys + {node}
            && MemoSound(E, after) && HasDepth(E, after.Keys, node, best + 1)
            && Ordered(E, after.Keys, if cycle == [] then finished + [node] else finished, cycle)
            && Accounted(E, after, |path| - 1, cycle, closing)
            && Stacked(E, visiting - {node}, path[..|path| - 1])
            && (Owes(visited, |path|, cycle, closing, best) ==> Owes(after, |path| - 1, cycle, closing, best + 1))
  {
    ConcludedMemo(E, visited, visiting, path, cycle, closing, node, best);
    ConcludedOrder(E, visited, visiting, finished, cycle, node, best);
    ConcludedDebt(E, visited, |path|, cycle, closing, node, best);
    ConcludedStack(E, visiting, path, node);
    var after := visited[node := best + 1];
    assert after.Keys == visited.Keys + {node};
    assert node in after && after[node] == best + 1;
  }

  lemma ConcludedStack(E: Edges, visiting: set<Id>, path: seq<Id>, node: Id)
    requires Stacked(E, visiting, path) && path != [] && path[|path| - 1] == node && node !in path[..|path| - 1]
    ensures Stacked(E, visiting - {node}, path[..|path| - 1])
  {
    assert path == path[..|path| - 1] + [node];
  }

  lemma ChildDoneStays(
    before: Depths, after: Depths, visiting: set<Id>, c0: seq<Id>, c1: seq<Id>, child: Id, best: nat, deeper: nat)
    requires ChildDone(before, visiting, c0, child, best)
    requires Extends(before, after) && best <= deeper && (c0 != [] ==> c1 == c0)
    ensures ChildDone(after, visiting, c1, child, deeper)
  {
  }

  lemma PaidExtends(before: Depths, after: Depths, cycle: seq<Id>)
    requires Extends(before, after) && Paid(before, cycle)
    ensures Paid(after, cycle)
  {
    var v :| v in before && before[v] >= |cycle|;
    assert v in after;
  }

  lemma DeepestStays(E: Edges, explored: set<Id>, more: set<Id>, node: Id, best: nat)
    requires Deepest(E, explored, node, best) && explored <= more
    ensures Deepest(E, more, node, best)
  {
    if best > 0 {
      var c :| (node, c) in E && HasDepth(E, explored, c, best);
      HasDepthGrows(E, explored, more, c, best);
    }
  }

  lemma ClosedWalkIsCycle(E: Edges, w: seq<Id>)
    requires ClosedWalk(E, w)
    ensures OnCycle(E, w[0]) && !Acyclic(E)
  {
    assert WalkBetween(E, w[0], w[0], w);
  }

  // ------------------------------------------------------------ whole search

  /** In an acyclic graph no walk repeats a node. */
  lemma AcyclicWalkDistinct(E: Edges, w: seq<Id>)
    requires Acyclic(E) && Walk(E, w)
    ensures Distinct(w)
  {
    forall i, j | 0 <= i < j < |w| ensures w[i] != w[j] {
      if w[i] == w[j] {
        assert ClosedWalk(E, w[i..j + 1]);
        ClosedWalkIsCycle(E, w[i..j + 1]);
      }
    }
  }

  function Universe(refs: seq<Id>, edges: seq<(Id, Id)>): set<Id> {
    (set r | r in refs) + (set e | e in edges :: e.0) + (set e | e in edges :: e.1)
  }

  function EdgeSet(edges: seq<(Id, Id)>): Edges {
    set e | e in edges
  }

  method SuccessorLists(refs: seq<Id>, edges: seq<(Id, Id)>) returns (successors: AdjacencyLists)
    ensures Lists(successors, EdgeSet(edges))
  {
    successors := map r | r in refs :: [];
    for k := 0 to |edges|
      invariant Lists(successors, EdgeSet(edges[..k]))
    {
      assert edges[..k + 1] == edges[..k] + [edges[k]];
      assert edges[k] == (edges[k].0, edges[k].1);
      AppendedSuccessors(successors, edges[k].0, edges[k].1);
      successors := Appended(successors, edges[k].0, edges[k].1);
    }
    assert edges[..|edges|] == edges;
  }

  /** `r` is the node count of a real walk from `refs`, without repetition but for its last node. */
  ghost predicate RealPath(refs: seq<Id>, E: Edges, r: nat) {
    exists v, w :: v in refs && NearlySimple(E, w) && w[0] == v && |w| == r
  }

  ghost predicate CycleReachable(refs: seq<Id>, E: Edges) {
    exists v, c :: v in refs && Reaches(E, v, c) && OnCycle(E, c)
  }

  /** Some closed walk, its start counted twice, has at most `r` nodes. */
  ghost predicate SpansCycle(E: Edges, r: nat) {
    exists w :: ClosedWalk(E, w) && |w| <= r
  }

  /** What the search finds from a non-empty list of components. */
  ghost predicate PathLength(refs: seq<Id>, E: Edges, universe: set<Id>, r: nat) {
    && r > 0 && RealPath(refs, E, r) && r <= |universe| + 1
    && (Acyclic(E) ==> r <= |universe| && forall v :: v in refs ==> Bounds(E, v, r))
    && (CycleReachable(refs, E) ==> SpansCycle(E, r))
  }

  /**
   * `_longest_dependency_path`. On an acyclic graph the result is the node
   * count of a longest walk from the given components. On any graph it is the
   * node count of a real walk without repetition but for its last node, so at
   * most one more than there are nodes; and once a cycle can be reached it is
   * at least the length of some closed walk, the start counted twice.
   */
  method LongestDependencyPath(refs: seq<Id>, edges: seq<(Id, Id)>) returns (r: nat)
    ensures refs == [] ==> r == 0
    ensures refs != [] ==> PathLength(refs, EdgeSet(edges), Universe(refs, edges), r)
  {
    ghost var E := EdgeSet(edges);
    if refs == [] {
      return 0;
    }
    var successors := SuccessorLists(refs, edges);
    var universe := Universe(refs, edges);
    var search := new DepthSearch(successors, universe, E);
    ghost var deepest;
    r, deepest := DeepestOf(search, refs);
    Wrap(E, universe, search.visited, search.finished, search.cycle, search.closing, refs, deepest, r);
  }

  /** The largest depth of the given components. */
  method DeepestOf(search: DepthSearch, refs: seq<Id>) returns (r: nat, ghost deepest: Id)
    requires refs != [] && search.Valid() && search.path == [] && search.visited == map[] && search.cycle == []
    requires forall v :: v in refs ==> v in search.universe
    modifies search
    ensures search.Valid() && search.path == []
    ensures deepest in refs && HasDepth(search.E, search.visited.Keys, deepest, r)
    ensures forall v :: v in refs ==> v in search.visited && search.visited[v] <= r
    ensures AddedUpTo(map[], search.visited, r)
  {
    r := 0;
    deepest := refs[0];
    for k := 0 to |refs|
      invariant search.Valid() && search.path == []
      invariant k == 0 ==> r == 0 && search.visited == map[] && search.cycle == []
      invariant k > 0 ==> deepest in refs && HasDepth(search.E, search.visited.Keys, deepest, r)
      invariant forall j :: 0 <= j < k ==> refs[j] in search.visited && search.visited[refs[j]] <= r
      invariant AddedUpTo(map[], search.visited, r)
    {
      assert refs[k] in search.universe;
      ghost var before := search.visited.Keys;
      var d := search.Depth(refs[k]);
      assert refs[k] !in search.visiting by { assert search.path == []; }
      if d > r || k == 0 {
        r := d;
        deepest := refs[k];
      } else {
        HasDepthGrows(search.E, before, search.visited.Keys, deepest, r);
      }
    }
  }

  lemma Wrap(
    E: Edges, universe: set<Id>, visited: Depths, finished: seq<Id>, cycle: seq<Id>, closing: nat,
    refs: seq<Id>, deepest: Id, r: nat)
    requires MemoSound(E, visited) && visited.Keys <= universe
    requires Ordered(E, visited.Keys, finished, cycle) && Accounted(E, visited, 0, cycle, closing)
    requires deepest in refs && HasDepth(E, visited.Keys, deepest, r)
    requires forall v :: v in refs ==> v in visited && visited[v] <= r
    requires AddedUpTo(map[], visited, r)
    ensures PathLength(refs, E, universe, r)
  {
    var w :| Witness(E, visited.Keys, deepest, r, w);
    DistinctBound(w[..|w| - 1], universe);
    assert RealPath(refs, E, r);
    if Acyclic(E) { AcyclicWithin(E, universe, visited, finished, cycle, w); }
    if CycleReachable(refs, E) { CycleSpanned(E, visited, finished, cycle, closing, refs, r); }
  }

  /** A walk from an explored node of an acyclic graph visits no more nodes than there are. */
  lemma AcyclicWithin(E: Edges, universe: set<Id>, visited: Depths, finished: seq<Id>, cycle: seq<Id>, w: seq<Id>)
    requires Acyclic(E) && visited.Keys <= universe && (cycle != [] ==> ClosedWalk(E, cycle))
    requires Ordered(E, visited.Keys, finished, cycle)
    requires Walk(E, w) && w[0] in visited && forall x :: x in w[..|w| - 1] ==> x in visited
    ensures |w| <= |universe|
  {
    AcyclicWalkDistinct(E, w);
    LastInUniverse(E, visited, finished, cycle, w);
    assert w == w[..|w| - 1] + [w[|w| - 1]];
    DistinctBound(w, universe);
  }

  lemma CycleSpanned(
    E: Edges, visited: Depths, finished: seq<Id>, cycle: seq<Id>, closing: nat, refs: seq<Id>, r: nat)
    requires Ordered(E, visited.Keys, finished, cycle) && Accounted(E, visited, 0, cycle, closing)
    requires forall v :: v in refs ==> v in visited
    requires AddedUpTo(map[], visited, r)
    requires CycleReachable(refs, E)
    ensures SpansCycle(E, r)
  {
    var v, c :| v in refs && Reaches(E, v, c) && OnCycle(E, c);
    if cycle == [] {
      FinishedIsClosed(E, visited.Keys, finished);
      ClosedKeepsReach(E, visited.Keys, v, c);
      SuccessorsFirstNoCycle(E, finished, c);
    }
    var deep :| deep in visited && visited[deep] >= |cycle|;
    assert visited[deep] <= r;
    assert ClosedWalk(E, cycle);
  }

  lemma FinishedIsClosed(E: Edges, explored: set<Id>, finished: seq<Id>)
    requires SuccessorsFirst(E, finished) && forall a :: a in finished <==> a in explored
    ensures ClosedUnder(E, explored)
  {
    forall a, b | (a, b) in E && a in explored ensures b in explored {
      var i :| 0 <= i < |finished| && finished[i] == a;
      assert b in finished[..i];
    }
  }

  lemma LastInUniverse(E: Edges, visited: Depths, finished: seq<Id>, cycle: seq<Id>, w: seq<Id>)
    requires Acyclic(E) && Ordered(E, visited.Keys, finished, cycle) && (cycle != [] ==> ClosedWalk(E, cycle))
    requires Walk(E, w) && w[0] in visited
    ensures w[|w| - 1] in visited
  {
    if cycle != [] { ClosedWalkIsCycle(E, cycle); }
    FinishedIsClosed(E, visited.Keys, finished);
    ClosedKeepsWalk(E, visited.Keys, w);
  }

  /** On a cycle of two components the result is three, one more than there are components. */
  lemma TwoCycle(a: Id, b: Id, refs: seq<Id>, r: nat)
    requires a != b && refs != [] && forall v :: v in refs ==> v in {a, b}
    requires PathLength(refs, {(a, b), (b, a)}, {a, b}, r)
    ensures r == 3
  {
    var E := {(a, b), (b, a)};
    var v := refs[0];
    assert v in refs && (v == a || v == b);
    var other := if v == a then b else a;
    assert (v, other) in E && (other, v) in E;
    var around := [v, other, v];
    assert WalkBetween(E, v, v, [v]) && WalkBetween(E, v, v, around);
    assert Reaches(E, v, v) && OnCycle(E, v);
    assert CycleReachable(refs, E);
    var w :| ClosedWalk(E, w) && |w| <= r;
    assert (w[0], w[1]) in E;
  }

  /**
   * The assembly index of `record_dependency_graph`: duplicates and edges to
   * strangers are dropped first, so on an acyclic graph it is the node count
   * of a longest walk of the whole dependency graph.
   */
  method AssemblyIndex(componentRefs: seq<Id>, dependencyEdges: seq<(Id, Id)>) returns (index: nat)
    ensures var E := Kept(componentRefs, dependencyEdges);
            && (Acyclic(E) ==>
                  && (forall w :: Walk(E, w) && (|w| > 1 || w[0] in componentRefs) ==> |w| <= index)
                  && index <= |set r | r in componentRefs|)
            && (componentRefs == [] ==> index == 0)
            && (componentRefs != [] ==> RealPath(componentRefs, E, index))
            && (!Acyclic(E) ==> SpansCycle(E, index))
            && index <= |set r | r in componentRefs| + 1
  {
    var unique := SortIds(set r | r in componentRefs);
    var edges := KeepEdges(componentRefs, unique, dependencyEdges);
    index := LongestDependencyPath(unique, edges);
    ghost var E := Kept(componentRefs, dependencyEdges);
    KeptUniverse(componentRefs, dependencyEdges, unique, edges);
    if unique == [] {
      NothingKept(componentRefs, dependencyEdges);
    } else {
      IndexMeaning(E, componentRefs, unique, index);
    }
  }

  lemma NothingKept(refs: seq<Id>, all: seq<(Id, Id)>)
    requires refs == []
    ensures Kept(refs, all) == {} && Acyclic(Kept(refs, all))
    ensures forall w :: Walk(Kept(refs, all), w) ==> |w| <= 1
  {
    var E := Kept(refs, all);
    forall w: seq<Id> | |w| > 1 ensures !Walk(E, w) {
      assert (w[0], w[1]) !in E;
    }
  }

  lemma IndexMeaning(E: Edges, refs: seq<Id>, unique: seq<Id>, index: nat)
    requires forall e :: e in E ==> e.0 in refs && e.1 in refs
    requires forall r :: r in unique <==> r in refs
    requires PathLength(unique, E, (set r | r in refs), index)
    ensures Acyclic(E) ==> forall w :: Walk(E, w) && (|w| > 1 || w[0] in refs) ==> |w| <= index
    ensures RealPath(refs, E, index)
    ensures !Acyclic(E) ==> SpansCycle(E, index)
  {
    var v, p :| v in unique && NearlySimple(E, p) && p[0] == v && |p| == index;
    assert v in refs;
    forall w | Acyclic(E) && Walk(E, w) && (|w| > 1 || w[0] in refs) ensures |w| <= index {
      if |w| > 1 { assert (w[0], w[1]) in E; }
      assert w[0] in unique && Bounds(E, w[0], index);
    }
    if !Acyclic(E) {
      var a :| OnCycle(E, a);
      var b := FirstEdge(E, a, a);
      ReachesRefl(E, a);
      assert a in unique && Reaches(E, a, a) && OnCycle(E, a);
      assert CycleReachable(unique, E);
    }
  }

  method KeepEdges(refs: seq<Id>, unique: seq<Id>, all: seq<(Id, Id)>) returns (edges: seq<(Id, Id)>)
    requires forall r :: r in unique <==> r in refs
    ensures EdgeSet(edges) == Kept(refs, all)
  {
    edges := [];
    for k := 0 to |all|
      invariant EdgeSet(edges) == Kept(refs, all[..k])
    {
      assert all[..k + 1] == all[..k] + [all[k]];
      KeptOneMore(refs, all[..k], all[k]);
      if all[k].0 in unique && all[k].1 in unique {
        edges := edges + [all[k]];
      }
    }
    assert all[..|all|] == all;
  }

  lemma KeptOneMore(refs: seq<Id>, edges: seq<(Id, Id)>, e: (Id, Id))
    ensures Kept(refs, edges + [e]) == Kept(refs, edges) + (if e.0 in refs && e.1 in refs then {e} else {})
  {
  }

  function Kept(refs: seq<Id>, edges: seq<(Id, Id)>): Edges {
    set e | e in edges && e.0 in refs && e.1 in refs
  }

  lemma KeptUniverse(refs: seq<Id>, all: seq<(Id, Id)>, unique: seq<Id>, edges: seq<(Id, Id)>)
    requires unique == Sorted(set r | r in refs) && EdgeSet(edges) == Kept(refs, all)
    ensures Universe(unique, edges) == set r | r in refs
    ensures unique == [] <==> refs == []
  {
    forall e | e in edges ensures e.0 in refs && e.1 in refs {
      assert e in EdgeSet(edges);
    }
    assert forall x :: x in unique <==> x in refs;
    assert unique != [] ==> unique[0] in unique && unique[0] in refs;
    assert refs != [] ==> refs[0] in refs && refs[0] in unique;
  }
}
