/** Counter-factual diagnosis: breadth-first derivation depth, and what removing a node does to it. */
module CounterFactual {
  import opened Ids
  import opened Digraph
  import opened Provenance

  // ------------------------------------------------------------------ distance

  ghost predicate WalkOfLength(E: Edges, a: Id, b: Id, n: nat) {
    exists w :: WalkBetween(E, a, b, w) && |w| == n + 1
  }

  /** The shortest walk from a to b has n edges. */
  ghost predicate AtDistance(E: Edges, a: Id, b: Id, n: nat) {
    WalkOfLength(E, a, b, n) && forall m: nat :: WalkOfLength(E, a, b, m) ==> n <= m
  }

  lemma OneLonger(E: Edges, a: Id, b: Id, c: Id, n: nat)
    requires WalkOfLength(E, a, b, n) && (b, c) in E
    ensures WalkOfLength(E, a, c, n + 1)
  {
    var w :| WalkBetween(E, a, b, w) && |w| == n + 1;
    assert WalkBetween(E, a, c, w + [c]);
  }

  /** Depths that start at 0 and grow by at most 1 along an edge never exceed the length of a walk. */
  lemma {:induction false} DepthBelowWalk(E: Edges, depth: map<Id, nat>, w: seq<Id>)
    requires Walk(E, w) && w[0] in depth
    requires forall a, b :: (a, b) in E && a in depth ==> b in depth && depth[b] <= depth[a] + 1
    ensures w[|w| - 1] in depth && depth[w[|w| - 1]] <= depth[w[0]] + |w| - 1
  {
    if |w| <= 1 {
    } else {
      var v := w[..|w| - 1];
      DepthBelowWalk(E, depth, v);
      assert (v[|v| - 1], w[|w| - 1]) in E;
    }
  }

  /** The depth of a graph below `root`: the largest shortest distance to anything reached from it. */
  ghost predicate DeepestDistance(E: Edges, root: Id, score: nat) {
    && (exists x :: AtDistance(E, root, x, score))
    && (forall x, n: nat :: AtDistance(E, root, x, n) ==> n <= score)
  }

  // ------------------------------------------------------ breadth-first search

  /** The state between two turns of the search; `done` are the nodes already taken off the queue. */
  ghost predicate Searching(E: Edges, root: Id, depth: map<Id, nat>, queue: seq<Id>, done: set<Id>) {
    && root in depth && depth[root] == 0
    && depth.Keys == done + Elements(queue)
    && (forall x :: x in depth ==> WalkOfLength(E, root, x, depth[x]))
    && (forall a, b :: a in done && (a, b) in E ==> a in depth && b in depth && depth[b] <= depth[a] + 1)
    && (forall i, j :: 0 <= i <= j < |queue| ==>
          queue[i] in depth && queue[j] in depth && depth[queue[i]] <= depth[queue[j]])
    && (queue != [] ==> forall x :: x in depth ==> depth[x] <= depth[queue[0]] + 1)
  }

  /** One pass over the relations: the objects derived from `current` that have no depth yet get one. */
  method Discover(relations: seq<Relation>, current: Id, depth0: map<Id, nat>, queue0: seq<Id>)
    returns (depth: map<Id, nat>, queue: seq<Id>)
    requires current in depth0
    ensures forall x :: x in depth0 ==> x in depth && depth[x] == depth0[x]
    ensures depth.Keys == depth0.Keys + Next(relations, current, true)
    ensures forall x :: x in depth && x !in depth0 ==> depth[x] == depth0[current] + 1
    ensures queue0 <= queue && forall i :: |queue0| <= i < |queue| ==> queue[i] in depth && queue[i] !in depth0
    ensures forall x :: x in depth && x !in depth0 ==> x in queue
    ensures depth.Keys == depth0.Keys ==> queue == queue0
  {
    depth, queue := depth0, queue0;
    for k := 0 to |relations|
      invariant forall x :: x in depth0 ==> x in depth && depth[x] == depth0[x]
      invariant depth.Keys == depth0.Keys + Next(relations[..k], current, true)
      invariant forall x :: x in depth && x !in depth0 ==> depth[x] == depth0[current] + 1
      invariant queue0 <= queue && forall i :: |queue0| <= i < |queue| ==> queue[i] in depth && queue[i] !in depth0
      invariant forall x :: x in depth && x !in depth0 ==> x in queue
      invariant depth.Keys == depth0.Keys ==> queue == queue0
    {
      NextOneMore(relations, k, current, true);
      var r := relations[k];
      if r.kind.WasDerivedFrom? && r.subject == current && r.obj !in depth {
        depth := depth[r.obj := depth[current] + 1];
        queue := Push(queue, r.obj);
        assert queue[|queue| - 1] == r.obj;
      }
    }
    assert relations[..|relations|] == relations;
  }

  /** Every reached node with its shortest distance. */
  method Depths(relations: seq<Relation>, root: Id) returns (depth: map<Id, nat>)
    ensures forall x :: x in depth <==> Reaches(Derivations(relations), root, x)
    ensures forall x :: x in depth ==> AtDistance(Derivations(relations), root, x, depth[x])
    ensures root in depth
  {
    ghost var E := Derivations(relations);
    depth := map[root := 0];
    var queue := [root];
    ghost var done: set<Id> := {};
    StartSearching(E, root);
    while queue != []
      invariant Searching(E, root, depth, queue, done)
      invariant depth.Keys <= Targets(E) + {root}
      decreases Targets(E) + {root} - depth.Keys, |queue|
    {
      var current := queue[0];
      WalkedIsReversed(relations);
      NextAreEdges(relations, current, true);
      var depth', queue' := Discover(relations, current, depth, queue[1..]);
      SearchingStep(E, root, depth, queue, done, depth', queue');
      assert forall x :: x in depth' && x !in depth ==> (current, x) in E && x in Targets(E);
      depth, queue, done := depth', queue', done + {current};
    }
    SearchingDone(E, root, depth, done);
  }

  lemma StartSearching(E: Edges, root: Id)
    ensures Searching(E, root, map[root := 0], [root], {})
  {
    assert WalkBetween(E, root, root, [root]);
  }

  /** Taking the head of the queue and discovering its successors keeps the search in order. */
  lemma SearchingStep(E: Edges, root: Id, depth: map<Id, nat>, queue: seq<Id>, done: set<Id>,
                      depth': map<Id, nat>, queue': seq<Id>)
    requires queue != [] && Searching(E, root, depth, queue, done)
    requires forall x :: x in depth ==> x in depth' && depth'[x] == depth[x]
    requires forall x :: x in depth' <==> x in depth || (queue[0], x) in E
    requires forall x :: x in depth' && x !in depth ==> depth'[x] == depth[queue[0]] + 1
    requires queue[1..] <= queue'
    requires forall i :: |queue| - 1 <= i < |queue'| ==> queue'[i] in depth' && queue'[i] !in depth
    requires forall x :: x in depth' && x !in depth ==> x in queue'
    ensures Searching(E, root, depth', queue', done + {queue[0]})
  {
    StepKeys(depth, queue, done, depth', queue');
    StepOrder(E, root, depth, queue, done, depth', queue');
    forall x | x in depth' && x !in depth ensures WalkOfLength(E, root, x, depth'[x]) {
      OneLonger(E, root, queue[0], x, depth[queue[0]]);
    }
  }

  lemma StepKeys(depth: map<Id, nat>, queue: seq<Id>, done: set<Id>, depth': map<Id, nat>, queue': seq<Id>)
    requires queue != [] && depth.Keys == done + Elements(queue) && depth.Keys <= depth'.Keys
    requires queue[1..] <= queue'
    requires forall i :: |queue| - 1 <= i < |queue'| ==> queue'[i] in depth'
    requires forall x :: x in depth' && x !in depth ==> x in queue'
    ensures depth'.Keys == done + {queue[0]} + Elements(queue')
  {
    assert queue == [queue[0]] + queue[1..];
    assert queue' == queue[1..] + queue'[|queue| - 1..];
    forall x ensures x in depth' <==> x in done || x == queue[0] || x in queue' {
      assert x in queue <==> x == queue[0] || x in queue[1..];
      assert x in queue' <==> x in queue[1..] || x in queue'[|queue| - 1..];
    }
  }

  lemma StepOrder(E: Edges, root: Id, depth: map<Id, nat>, queue: seq<Id>, done: set<Id>,
                  depth': map<Id, nat>, queue': seq<Id>)
    requires queue != [] && Searching(E, root, depth, queue, done)
    requires forall x :: x in depth ==> x in depth' && depth'[x] == depth[x]
    requires forall x :: x in depth' && x !in depth ==> depth'[x] == depth[queue[0]] + 1
    requires queue[1..] <= queue'
    requires forall i :: |queue| - 1 <= i < |queue'| ==> queue'[i] in depth' && queue'[i] !in depth
    ensures forall i, j :: 0 <= i <= j < |queue'| ==>
              queue'[i] in depth' && queue'[j] in depth' && depth'[queue'[i]] <= depth'[queue'[j]]
    ensures queue' != [] ==> forall x :: x in depth' ==> depth'[x] <= depth'[queue'[0]] + 1
  {
    assert forall i :: 0 <= i < |queue| - 1 ==> queue'[i] == queue[1..][i] == queue[i + 1];
    var d := depth[queue[0]];
    forall i | 0 <= i < |queue'| ensures queue'[i] in depth' && d <= depth'[queue'[i]] <= d + 1 {
      if i < |queue| - 1 { assert queue'[i] == queue[i + 1]; }
    }
  }

  lemma SearchingDone(E: Edges, root: Id, depth: map<Id, nat>, done: set<Id>)
    requires Searching(E, root, depth, [], done)
    ensures forall x :: x in depth <==> Reaches(E, root, x)
    ensures forall x :: x in depth ==> AtDistance(E, root, x, depth[x])
  {
    assert depth.Keys == done;
    forall x | x in depth ensures Reaches(E, root, x) && AtDistance(E, root, x, depth[x]) {
      var w :| WalkBetween(E, root, x, w) && |w| == depth[x] + 1;
      forall m: nat | WalkOfLength(E, root, x, m) ensures depth[x] <= m {
        var v :| WalkBetween(E, root, x, v) && |v| == m + 1;
        DepthBelowWalk(E, depth, v);
      }
    }
    forall x | Reaches(E, root, x) ensures x in depth {
      var w :| WalkBetween(E, root, x, w);
      DepthBelowWalk(E, depth, w);
    }
  }

  method MaxValue(depth: map<Id, nat>) returns (best: nat)
    requires depth != map[]
    ensures exists x :: x in depth && depth[x] == best
    ensures forall x :: x in depth ==> depth[x] <= best
  {
    var pending := depth.Keys;
    var first :| first in pending;
    best := depth[first];
    while pending != {}
      invariant pending <= depth.Keys
      invariant exists x :: x in depth && depth[x] == best
      invariant forall x :: x in depth && x !in pending ==> depth[x] <= best
    {
      var x :| x in pending;
      if depth[x] > best { best := depth[x]; }
      pending := pending - {x};
    }
  }

  /** Evaluator: the depth below `root`, 0 when the graph has no such entity. */
  method DerivationDepth(graph: ProvGraph, root: Id) returns (score: nat)
    ensures root !in graph.entities ==> score == 0
    ensures root in graph.entities ==> DeepestDistance(Derivations(graph.relations), root, score)
  {
    if root !in graph.entities { return 0; }
    var depth := Depths(graph.relations, root);
    score := MaxValue(depth);
    DeepestOf(Derivations(graph.relations), root, depth, score);
  }

  lemma DeepestOf(E: Edges, root: Id, depth: map<Id, nat>, score: nat)
    requires forall x :: x in depth <==> Reaches(E, root, x)
    requires forall x :: x in depth ==> AtDistance(E, root, x, depth[x])
    requires exists x :: x in depth && depth[x] == score
    requires forall x :: x in depth ==> depth[x] <= score
    ensures DeepestDistance(E, root, score)
  {
    var best :| best in depth && depth[best] == score;
    assert AtDistance(E, root, best, score);
    forall x, n: nat | AtDistance(E, root, x, n) ensures n <= score {
      assert WalkOfLength(E, root, x, n) && WalkOfLength(E, root, x, depth[x]);
    }
  }

  /** Every reached edge goes down exactly one level. */
  ghost predicate Layered(E: Edges, depth: map<Id, nat>) {
    forall a, b :: (a, b) in E && a in depth ==> b in depth && depth[b] == depth[a] + 1
  }

  ghost predicate Distances(E: Edges, root: Id, depth: map<Id, nat>) {
    forall x :: (x in depth <==> Reaches(E, root, x)) && (x in depth ==> AtDistance(E, root, x, depth[x]))
  }

  /**
   * The evaluator is described as the depth of the deepest derivation chain. It measures distances;
   * a chain is as long as the distance of its end exactly when no reached edge skips a level.
   */
  lemma ChainsAreDistancesExactly(E: Edges, root: Id, depth: map<Id, nat>)
    requires Distances(E, root, depth)
    ensures Layered(E, depth)
       <==> forall x, n: nat :: WalkOfLength(E, root, x, n) ==> x in depth && depth[x] == n
  {
    ReachesRefl(E, root);
    assert WalkBetween(E, root, root, [root]);
    assert WalkOfLength(E, root, root, 0);
    if Layered(E, depth) {
      forall x, n: nat | WalkOfLength(E, root, x, n) ensures x in depth && depth[x] == n {
        var w :| WalkBetween(E, root, x, w) && |w| == n + 1;
        LayeredWalk(E, depth, w);
      }
    }
    if forall x, n: nat :: WalkOfLength(E, root, x, n) ==> x in depth && depth[x] == n {
      forall a, b | (a, b) in E && a in depth ensures b in depth && depth[b] == depth[a] + 1 {
        OneLonger(E, root, a, b, depth[a]);
      }
    }
  }

  lemma {:induction false} LayeredWalk(E: Edges, depth: map<Id, nat>, w: seq<Id>)
    requires Layered(E, depth) && Walk(E, w) && w[0] in depth
    ensures w[|w| - 1] in depth && depth[w[|w| - 1]] == depth[w[0]] + |w| - 1
  {
    if |w| <= 1 {
    } else {
      LayeredWalk(E, depth, w[..|w| - 1]);
      assert (w[|w| - 2], w[|w| - 1]) in E;
    }
  }

  // -------------------------------------------------------- the deepest chain

  /** What the evaluator is described as: the length of the longest chain of derivations. */
  ghost predicate DeepestChain(E: Edges, root: Id, score: nat) {
    && (exists x :: WalkOfLength(E, root, x, score))
    && (forall x, n: nat :: WalkOfLength(E, root, x, n) ==> n <= score)
  }

  /** Levels for the reached nodes that start at 0, rise along every edge and never exceed `score`. */
  ghost predicate Levels(E: Edges, root: Id, score: nat, level: map<Id, nat>) {
    && (forall x :: x in level <==> Reaches(E, root, x))
    && (root in level ==> level[root] == 0)
    && (forall a, b :: (a, b) in E && a in level ==> b in level && level[a] < level[b])
    && (forall x :: x in level ==> level[x] <= score)
  }

  /** The score is the length of the deepest chain exactly when the reached nodes have levels up to it. */
  lemma DeepestChainExactly(E: Edges, root: Id, score: nat)
    requires DeepestDistance(E, root, score)
    ensures DeepestChain(E, root, score) <==> exists level :: Levels(E, root, score, level)
  {
    var deepest :| AtDistance(E, root, deepest, score);
    assert WalkOfLength(E, root, deepest, score);
    if DeepestChain(E, root, score) {
      LongestAreLevels(E, root, score);
    }
    if exists level :: Levels(E, root, score, level) {
      var level :| Levels(E, root, score, level);
      forall x, n: nat | WalkOfLength(E, root, x, n) ensures n <= score {
        var w :| WalkBetween(E, root, x, w) && |w| == n + 1;
        ReachesRefl(E, root);
        LevelsRise(E, root, score, level, w);
      }
    }
  }

  lemma {:induction false} LevelsRise(E: Edges, root: Id, score: nat, level: map<Id, nat>, w: seq<Id>)
    requires Levels(E, root, score, level) && Walk(E, w) && w[0] in level
    ensures w[|w| - 1] in level && level[w[|w| - 1]] >= |w| - 1
  {
    if |w| == 1 {
    } else {
      LevelsRise(E, root, score, level, w[..|w| - 1]);
      assert (w[|w| - 2], w[|w| - 1]) in E;
    }
  }

  /** The longest walk from `root` to `x` with at most `bound` edges. */
  ghost function Longest(E: Edges, root: Id, x: Id, bound: nat): (n: nat)
    ensures n <= bound
    ensures forall m: nat :: m <= bound && WalkOfLength(E, root, x, m) ==> m <= n && WalkOfLength(E, root, x, n)
  {
    if bound == 0 || WalkOfLength(E, root, x, bound) then bound else Longest(E, root, x, bound - 1)
  }

  lemma LongestIsWalk(E: Edges, root: Id, x: Id, score: nat)
    requires DeepestChain(E, root, score) && Reaches(E, root, x)
    ensures WalkOfLength(E, root, x, Longest(E, root, x, score))
  {
    var w :| WalkBetween(E, root, x, w);
    var n: nat := |w| - 1;
    assert WalkOfLength(E, root, x, n) && n <= score;
  }

  lemma LongestAreLevels(E: Edges, root: Id, score: nat)
    requires DeepestChain(E, root, score)
    ensures exists level :: Levels(E, root, score, level)
  {
    var level := map x | x in Targets(E) + {root} && Reaches(E, root, x) :: Longest(E, root, x, score);
    forall x ensures x in level <==> Reaches(E, root, x) {
      if Reaches(E, root, x) { ReachedIsTarget(E, root, x); }
    }
    RootIsLowest(E, root, score);
    forall a, b | (a, b) in E && a in level ensures b in level && level[a] < level[b] {
      ThenEdge(E, root, a, b);
      LongestIsWalk(E, root, a, score);
      OneLonger(E, root, a, b, level[a]);
    }
    assert Levels(E, root, score, level);
  }

  lemma ReachedIsTarget(E: Edges, root: Id, x: Id)
    requires Reaches(E, root, x)
    ensures x == root || x in Targets(E)
  {
    var w :| WalkBetween(E, root, x, w);
    if |w| > 1 {
      assert (w[|w| - 2], x) in E;
    }
  }

  /** A walk back to the root could be repeated, and would have no longest one. */
  lemma RootIsLowest(E: Edges, root: Id, score: nat)
    requires DeepestChain(E, root, score)
    ensures Longest(E, root, root, score) == 0
  {
    var n := Longest(E, root, root, score);
    ReachesRefl(E, root);
    LongestIsWalk(E, root, root, score);
    var w :| WalkBetween(E, root, root, w) && |w| == n + 1;
    JoinWalks(E, root, root, root, w, w);
    assert WalkOfLength(E, root, root, n + n);
  }

  /** A shortcut hides a chain: a derived from b derived from c, and a from c directly, scores 1. */
  lemma ShortcutHidesChain(a: Id, b: Id, c: Id)
    requires a != b && b != c && a != c
    ensures WalkOfLength({(a, b), (b, c), (a, c)}, a, c, 2) && !DeepestChain({(a, b), (b, c), (a, c)}, a, 1)
    ensures DeepestDistance({(a, b), (b, c), (a, c)}, a, 1)
  {
    var E := {(a, b), (b, c), (a, c)};
    assert WalkBetween(E, a, c, [a, b, c]) && WalkOfLength(E, a, c, 2);
    assert WalkBetween(E, a, c, [a, c]) && WalkBetween(E, a, b, [a, b]) && WalkBetween(E, a, a, [a]);
    assert WalkOfLength(E, a, c, 1) && WalkOfLength(E, a, b, 1) && WalkOfLength(E, a, a, 0);
    forall x, n: nat | AtDistance(E, a, x, n) ensures n <= 1 {
      var w :| WalkBetween(E, a, x, w) && |w| == n + 1;
      assert n > 0 ==> (w[n - 1], w[n]) in E;
    }
    assert AtDistance(E, a, c, 1);
  }

  // ------------------------------------------------------------------- pruning

  ghost function Without(nodes: map<Id, Node>, target: Id): map<Id, Node> {
    map k | k in nodes && k != target :: nodes[k]
  }

  ghost predicate Touches(r: Relation, target: Id) {
    r.subject == target || r.obj == target
  }

  ghost function Untouched(relations: seq<Relation>, target: Id): seq<Relation> {
    if relations == [] then []
    else
      var before := Untouched(relations[..|relations| - 1], target);
      var last := relations[|relations| - 1];
      if Touches(last, target) then before else before + [last]
  }

  /** The graph without the node `target` and without every relation that touches it. */
  ghost function Pruned(g: Record, target: Id): Record {
    Record(Without(g.entities, target), Without(g.activities, target), Without(g.agents, target),
           Untouched(g.relations, target))
  }

  lemma {:induction false} UntouchedExact(relations: seq<Relation>, target: Id)
    ensures forall r :: r in Untouched(relations, target) <==> r in relations && !Touches(r, target)
  {
    if relations == [] {
    } else {
      UntouchedExact(relations[..|relations| - 1], target);
      assert relations == relations[..|relations| - 1] + [relations[|relations| - 1]];
    }
  }

  lemma PrunedEdges(relations: seq<Relation>, target: Id)
    ensures Derivations(Untouched(relations, target))
         == set e | e in Derivations(relations) && e.0 != target && e.1 != target
  {
    UntouchedExact(relations, target);
    forall a, b ensures (a, b) in Derivations(Untouched(relations, target))
                   <==> (a, b) in Derivations(relations) && a != target && b != target {
      if (a, b) in Derivations(relations) && a != target && b != target {
        var r :| r in relations && r.kind.WasDerivedFrom? && (r.subject, r.obj) == (a, b);
        assert r in Untouched(relations, target);
      }
    }
  }

  /** The walks of the pruned graph are the walks of the whole graph that avoid the removed node. */
  lemma PrunedWalks(relations: seq<Relation>, target: Id, w: seq<Id>)
    requires |w| > 1
    ensures Walk(Derivations(Untouched(relations, target)), w)
       <==> Walk(Derivations(relations), w) && target !in w
  {
    PrunedEdges(relations, target);
    var F := Derivations(Untouched(relations, target));
    if Walk(F, w) {
      forall i | 0 <= i < |w| ensures w[i] != target {
        if i == 0 { assert (w[0], w[1]) in F; } else { assert (w[i - 1], w[i]) in F; }
      }
    }
  }

  /** Reachability after pruning is reachability by a path around the removed node. */
  lemma PrunedReachability(relations: seq<Relation>, target: Id, a: Id, b: Id)
    ensures ReachesPlus(Derivations(Untouched(relations, target)), a, b)
       <==> exists w :: WalkBetween(Derivations(relations), a, b, w) && |w| > 1 && target !in w
  {
    var F := Derivations(Untouched(relations, target));
    if ReachesPlus(F, a, b) {
      var w :| WalkBetween(F, a, b, w) && |w| > 1;
      PrunedWalks(relations, target, w);
    }
    if w :| WalkBetween(Derivations(relations), a, b, w) && |w| > 1 && target !in w {
      PrunedWalks(relations, target, w);
      assert WalkBetween(F, a, b, w);
    }
  }

  /** What is still reached after pruning is reached no sooner than before. */
  lemma PruningOnlyLengthens(relations: seq<Relation>, target: Id, root: Id, x: Id, before: nat, after: nat)
    requires AtDistance(Derivations(relations), root, x, before)
    requires AtDistance(Derivations(Untouched(relations, target)), root, x, after)
    ensures before <= after
  {
    PrunedEdges(relations, target);
    var w :| WalkBetween(Derivations(Untouched(relations, target)), root, x, w) && |w| == after + 1;
    MonotoneWalk(Derivations(Untouched(relations, target)), Derivations(relations), w);
    assert WalkOfLength(Derivations(relations), root, x, after);
  }

  /** Distances change for exactly those nodes whose every shortest path runs through the removed node. */
  lemma DistanceKeptExactly(relations: seq<Relation>, target: Id, root: Id, x: Id, n: nat)
    requires AtDistance(Derivations(relations), root, x, n) && x != root
    ensures AtDistance(Derivations(Untouched(relations, target)), root, x, n)
       <==> exists w :: WalkBetween(Derivations(relations), root, x, w) && |w| == n + 1 && target !in w
  {
    var E, F := Derivations(relations), Derivations(Untouched(relations, target));
    PrunedEdges(relations, target);
    if AtDistance(F, root, x, n) {
      var w :| WalkBetween(F, root, x, w) && |w| == n + 1;
      PrunedWalks(relations, target, w);
    }
    if w :| WalkBetween(E, root, x, w) && |w| == n + 1 && target !in w {
      PrunedWalks(relations, target, w);
      assert WalkBetween(F, root, x, w);
      forall m: nat | WalkOfLength(F, root, x, m) ensures n <= m {
        var v :| WalkBetween(F, root, x, v) && |v| == m + 1;
        MonotoneWalk(F, E, v);
        assert WalkOfLength(E, root, x, m);
      }
    }
  }

  /** Everything but the node `target` and the relations that touch it, in the order it had. */
  ghost predicate LacksOnly(g: Record, pruned: Record, target: Id) {
    && pruned.entities == g.entities - {target} && pruned.activities == g.activities - {target}
    && pruned.agents == g.agents - {target}
    && (forall r :: r in pruned.relations <==> r in g.relations && r.subject != target && r.obj != target)
    && Within(pruned.relations, g.relations)
  }

  /** The list a is the list b with some elements left out. */
  ghost predicate Within<T>(a: seq<T>, b: seq<T>) {
    || a == []
    || (b != [] && a[|a| - 1] == b[|b| - 1] && Within(a[..|a| - 1], b[..|b| - 1]))
    || (b != [] && Within(a, b[..|b| - 1]))
  }

  lemma {:induction false} UntouchedWithin(relations: seq<Relation>, target: Id)
    ensures Within(Untouched(relations, target), relations)
  {
    if relations == [] {
    } else {
      var init := relations[..|relations| - 1];
      UntouchedWithin(init, target);
      var before := Untouched(init, target);
      if !Touches(relations[|relations| - 1], target) {
        assert (before + [relations[|relations| - 1]])[..|before|] == before;
      }
    }
  }

  lemma PrunedLacksOnly(g: Record, target: Id)
    ensures LacksOnly(g, Pruned(g, target), target)
  {
    UntouchedExact(g.relations, target);
    UntouchedWithin(g.relations, target);
  }

  lemma UntouchedOneMore(relations: seq<Relation>, k: nat, target: Id)
    requires k < |relations|
    ensures Untouched(relations[..k + 1], target)
         == Untouched(relations[..k], target) + (if Touches(relations[k], target) then [] else [relations[k]])
  {
    assert relations[..k + 1][..k] == relations[..k];
  }

  /** Copies a table of nodes, leaving `target` out. */
  method CopyWithout(nodes: map<Id, Node>, target: Id) returns (copy: map<Id, Node>)
    requires KeyedById(nodes)
    ensures copy == Without(nodes, target)
  {
    copy := map[];
    var pending := nodes.Keys;
    while pending != {}
      invariant pending <= nodes.Keys
      invariant copy == map k | k in nodes && k != target && k !in pending :: nodes[k]
    {
      var k :| k in pending;
      pending := pending - {k};
      if nodes[k].id != target { copy := copy[nodes[k].id := nodes[k]]; }
    }
  }

  // --------------------------------------------------------------- the diagnosis

  datatype Hypothesis = Hypothesis(targetId: Id, description: string)

  datatype Scored = Scored(targetId: Id, description: string, baseline: real, counter: real) {
    function Delta(): real { counter - baseline }
  }

  class CounterFactualDiagnosis {
    const graph: ProvGraph
    /** The evaluator is a parameter: any function of what a graph holds. */
    const evaluator: Record -> real
    var history: seq<Scored>

    constructor (graph: ProvGraph, evaluator: Record -> real)
      ensures this.graph == graph && this.evaluator == evaluator && history == []
    {
      this.graph, this.evaluator := graph, evaluator;
      history := [];
    }

    /** A hypothesis scored: the whole graph against the graph without the target. */
    ghost function ScoreOf(g: Record, hypothesis: Hypothesis): Scored {
      Scored(hypothesis.targetId, hypothesis.description,
             evaluator(g), evaluator(Pruned(g, hypothesis.targetId)))
    }

    method Prune(targetId: Id) returns (pruned: ProvGraph)
      requires graph.Valid()
      ensures fresh(pruned) && pruned.Valid() && pruned.State() == Pruned(graph.State(), targetId)
      ensures LacksOnly(graph.State(), pruned.State(), targetId)
    {
      PrunedLacksOnly(graph.State(), targetId);
      pruned := new ProvGraph();
      pruned.entities := CopyWithout(graph.entities, targetId);
      pruned.activities := CopyWithout(graph.activities, targetId);
      pruned.agents := CopyWithout(graph.agents, targetId);
      for k := 0 to |graph.relations|
        invariant pruned.relations == Untouched(graph.relations[..k], targetId)
        invariant pruned.entities == Without(graph.entities, targetId)
        invariant pruned.activities == Without(graph.activities, targetId)
        invariant pruned.agents == Without(graph.agents, targetId)
        modifies pruned
      {
        UntouchedOneMore(graph.relations, k, targetId);
        var r := graph.relations[k];
        if !(r.subject == targetId || r.obj == targetId) { pruned.relations := pruned.relations + [r]; }
      }
      assert graph.relations[..|graph.relations|] == graph.relations;
    }

    /** Scores every hypothesis against the unpruned graph; the graph itself is left alone. */
    method Score(hypotheses: seq<Hypothesis>) returns (results: seq<Scored>)
      requires graph.Valid()
      modifies this`history
      ensures |results| == |hypotheses|
      ensures forall i :: 0 <= i < |results| ==>
                var whole, pruned := evaluator(graph.State()), Pruned(graph.State(), hypotheses[i].targetId);
                && results[i].targetId == hypotheses[i].targetId
                && results[i].description == hypotheses[i].description
                && results[i].baseline == whole && results[i].counter == evaluator(pruned)
                && results[i].Delta() == evaluator(pruned) - whole
      ensures history == old(history) + results
    {
      var baseline := evaluator(graph.State());
      results := [];
      for i := 0 to |hypotheses|
        invariant |results| == i && history == old(history)
        invariant forall j :: 0 <= j < i ==> results[j] == ScoreOf(graph.State(), hypotheses[j])
      {
        var pruned := Prune(hypotheses[i].targetId);
        var counter := evaluator(pruned.State());
        results := results + [Scored(hypotheses[i].targetId, hypotheses[i].description, baseline, counter)];
      }
      history := history + results;
    }
  }
}
