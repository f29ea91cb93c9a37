/** Directed graphs over component ids: walks, reachability and cycles. */
module Digraph {
  import opened Ids

  type Edges = set<(Id, Id)>

  ghost predicate Walk(E: Edges, w: seq<Id>) {
    w != [] && forall i, j :: 0 <= i && j == i + 1 < |w| ==> (w[i], w[j]) in E
  }

  ghost predicate WalkBetween(E: Edges, a: Id, b: Id, w: seq<Id>) {
    Walk(E, w) && w[0] == a && w[|w| - 1] == b
  }

  /** Reachable along zero or more edges. */
  ghost predicate Reaches(E: Edges, a: Id, b: Id) {
    exists w :: WalkBetween(E, a, b, w)
  }

  /** Reachable along one or more edges. */
  ghost predicate ReachesPlus(E: Edges, a: Id, b: Id) {
    exists w :: WalkBetween(E, a, b, w) && |w| > 1
  }

  ghost predicate OnCycle(E: Edges, a: Id) {
    ReachesPlus(E, a, a)
  }

  ghost predicate Acyclic(E: Edges) {
    forall a :: !OnCycle(E, a)
  }

  ghost predicate ClosedUnder(E: Edges, s: set<Id>) {
    forall a, b :: (a, b) in E && a in s ==> b in s
  }

  ghost predicate Distinct(w: seq<Id>) {
    forall i, j :: 0 <= i < j < |w| ==> w[i] != w[j]
  }

  function Reversed(E: Edges): Edges {
    set e | e in E :: (e.1, e.0)
  }

  // ------------------------------------------------------------------- walks

  lemma ReachesRefl(E: Edges, a: Id)
    ensures Reaches(E, a, a)
  {
    assert WalkBetween(E, a, a, [a]);
  }

  lemma JoinWalks(E: Edges, a: Id, b: Id, c: Id, v: seq<Id>, w: seq<Id>)
    requires WalkBetween(E, a, b, v) && WalkBetween(E, b, c, w)
    ensures WalkBetween(E, a, c, v + w[1..])
    ensures |v + w[1..]| == |v| + |w| - 1
  {
    var x := v + w[1..];
    forall i, j | 0 <= i && j == i + 1 < |x| ensures (x[i], x[j]) in E {
      if j >= |v| {
        assert x[j] == w[j - |v| + 1];
        assert x[i] == w[i - |v| + 1];
      }
    }
    assert x[|x| - 1] == c;
  }

  lemma ReachesTrans(E: Edges, a: Id, b: Id, c: Id)
    requires Reaches(E, a, b) && Reaches(E, b, c)
    ensures Reaches(E, a, c)
  {
    var v :| WalkBetween(E, a, b, v);
    var w :| WalkBetween(E, b, c, w);
    JoinWalks(E, a, b, c, v, w);
  }

  lemma EdgeThen(E: Edges, a: Id, b: Id, c: Id)
    requires (a, b) in E && Reaches(E, b, c)
    ensures ReachesPlus(E, a, c) && Reaches(E, a, c)
  {
    var w :| WalkBetween(E, b, c, w);
    var x := [a] + w;
    assert forall i, j :: 0 <= i && j == i + 1 < |x| ==> j >= 1 && x[j] == w[j - 1] && (i >= 1 ==> x[i] == w[i - 1]);
    assert WalkBetween(E, a, c, x);
  }

  lemma ThenEdge(E: Edges, a: Id, b: Id, c: Id)
    requires Reaches(E, a, b) && (b, c) in E
    ensures ReachesPlus(E, a, c) && Reaches(E, a, c)
  {
    var w :| WalkBetween(E, a, b, w);
    var x := w + [c];
    assert WalkBetween(E, a, c, x);
  }

  /** A walk of at least one edge starts with an edge and goes on from there. */
  lemma FirstEdge(E: Edges, a: Id, c: Id) returns (b: Id)
    requires ReachesPlus(E, a, c)
    ensures (a, b) in E && Reaches(E, b, c)
  {
    var w :| WalkBetween(E, a, c, w) && |w| > 1;
    b := w[1];
    assert WalkBetween(E, b, c, w[1..]);
  }

  lemma LastEdge(E: Edges, a: Id, c: Id) returns (b: Id)
    requires ReachesPlus(E, a, c)
    ensures Reaches(E, a, b) && (b, c) in E
  {
    var w :| WalkBetween(E, a, c, w) && |w| > 1;
    b := w[|w| - 2];
    assert WalkBetween(E, a, b, w[..|w| - 1]);
  }

  lemma PlusIsReaches(E: Edges, a: Id, b: Id)
    requires ReachesPlus(E, a, b)
    ensures Reaches(E, a, b)
  {
  }

  /** A set closed under successors keeps every walk that enters it. */
  lemma {:induction false} ClosedKeepsWalk(E: Edges, s: set<Id>, w: seq<Id>)
    requires ClosedUnder(E, s) && Walk(E, w) && w[0] in s
    ensures forall x :: x in w ==> x in s
  {
    if |w| <= 1 {
    } else {
      assert (w[0], w[1]) in E;
      assert Walk(E, w[1..]);
      ClosedKeepsWalk(E, s, w[1..]);
    }
    assert forall x :: x in w ==> x == w[0] || x in w[1..];
  }

  lemma ClosedKeepsReach(E: Edges, s: set<Id>, a: Id, b: Id)
    requires ClosedUnder(E, s) && a in s && Reaches(E, a, b)
    ensures b in s
  {
    var w :| WalkBetween(E, a, b, w);
    ClosedKeepsWalk(E, s, w);
  }

  lemma MonotoneWalk(E: Edges, F: Edges, w: seq<Id>)
    requires E <= F && Walk(E, w)
    ensures Walk(F, w)
  {
  }

  // ---------------------------------------------------------------- reversal

  ghost function Backwards(w: seq<Id>): seq<Id> {
    seq(|w|, i requires 0 <= i < |w| => w[|w| - 1 - i])
  }

  lemma WalkBackwards(E: Edges, a: Id, b: Id, w: seq<Id>)
    requires WalkBetween(E, a, b, w)
    ensures WalkBetween(Reversed(E), b, a, Backwards(w))
  {
    var r := Backwards(w);
    forall i, j | 0 <= i && j == i + 1 < |r| ensures (r[i], r[j]) in Reversed(E) {
      var k := |w| - 1 - j;
      assert (w[k], w[k + 1]) in E;
    }
  }

  lemma ReversedTwice(E: Edges)
    ensures Reversed(Reversed(E)) == E
  {
    forall a, b ensures (a, b) in Reversed(Reversed(E)) <==> (a, b) in E {
      assert (a, b) in E <==> (b, a) in Reversed(E);
    }
  }

  lemma ReachesPlusReversed(E: Edges, a: Id, b: Id)
    ensures ReachesPlus(E, a, b) <==> ReachesPlus(Reversed(E), b, a)
  {
    if ReachesPlus(E, a, b) {
      var w :| WalkBetween(E, a, b, w) && |w| > 1;
      WalkBackwards(E, a, b, w);
    }
    if ReachesPlus(Reversed(E), b, a) {
      var w :| WalkBetween(Reversed(E), b, a, w) && |w| > 1;
      WalkBackwards(Reversed(E), b, a, w);
      ReversedTwice(E);
    }
  }

  // ------------------------------------------------------------------ cycles

  /** `order` lists every node after all its successors. */
  ghost predicate SuccessorsFirst(E: Edges, order: seq<Id>) {
    forall i, b :: 0 <= i < |order| && (order[i], b) in E ==> b in order[..i]
  }

  /** Along a walk that starts in such a list, positions go down. */
  lemma {:induction false} PositionsDecrease(E: Edges, order: seq<Id>, w: seq<Id>, k: nat) returns (m: nat)
    requires SuccessorsFirst(E, order) && Walk(E, w)
    requires k < |order| && order[k] == w[0]
    ensures m + |w| <= k + 1 && order[m] == w[|w| - 1]
    decreases |w|
  {
    if |w| == 1 {
      m := k;
    } else {
      assert (order[k], w[1]) in E;
      assert w[1] in order[..k];
      var j: nat :| j < k && order[j] == w[1];
      assert Walk(E, w[1..]);
      m := PositionsDecrease(E, order, w[1..], j);
    }
  }

  /** Nothing in such a list lies on a cycle. */
  lemma {:induction false} SuccessorsFirstNoCycle(E: Edges, order: seq<Id>, a: Id)
    requires SuccessorsFirst(E, order) && a in order
    ensures !OnCycle(E, a)
  {
    var k: nat :| k < |order| && order[k] == a && a !in order[..k] by { FirstIndex(order, a); }
    assert forall j :: 0 <= j < k ==> order[j] in order[..k];
    if OnCycle(E, a) {
      var w :| WalkBetween(E, a, a, w) && |w| > 1;
      var m := PositionsDecrease(E, order, w, k);
    }
  }

  lemma {:induction false} FirstIndex(s: seq<Id>, a: Id)
    requires a in s
    ensures exists k: nat :: k < |s| && s[k] == a && a !in s[..k]
  {
    if a in s[..|s| - 1] {
      FirstIndex(s[..|s| - 1], a);
      var k: nat :| k < |s| - 1 && s[..|s| - 1][k] == a && a !in s[..|s| - 1][..k];
      assert s[..|s| - 1][..k] == s[..k];
    } else {
      assert s[|s| - 1] == a;
    }
  }

  /** A list of distinct ids drawn from a set is no longer than the set. */
  lemma {:induction false} DistinctBound(w: seq<Id>, s: set<Id>)
    requires Distinct(w) && forall x :: x in w ==> x in s
    ensures |w| <= |s|
    decreases |w|
  {
    if w == [] {
    } else {
      var last := w[|w| - 1];
      assert last in s;
      DistinctBound(w[..|w| - 1], s - {last});
    }
  }

  /** A closed acyclic relation on a non-empty set has a node of the set without predecessors in it. */
  ghost predicate IsSource(E: Edges, s: set<Id>, a: Id) {
    a in s && forall b :: b in s ==> (b, a) !in E
  }

  /** Walking back inside a finite set without sources must close a cycle. */
  lemma {:induction false} BackwardWalk(E: Edges, s: set<Id>, start: Id, n: nat) returns (w: seq<Id>)
    requires start in s
    requires forall a :: a in s ==> !IsSource(E, s, a)
    ensures |w| == n + 1 && Walk(E, w) && w[|w| - 1] == start
    ensures forall x :: x in w ==> x in s
  {
    if n == 0 {
      w := [start];
    } else {
      var v := BackwardWalk(E, s, start, n - 1);
      assert v[0] in s && !IsSource(E, s, v[0]);
      var b :| b in s && (b, v[0]) in E;
      w := [b] + v;
      assert forall i, j :: 0 <= i && j == i + 1 < |w| ==> w[j] == v[j - 1] && (i >= 1 ==> w[i] == v[i - 1]);
    }
  }

  /** Every node of a non-empty set without sources is downstream of a cycle inside the set. */
  lemma {:induction false} NoSourceDownstreamOfCycle(E: Edges, s: set<Id>, start: Id) returns (c: Id)
    requires start in s
    requires forall a :: a in s ==> !IsSource(E, s, a)
    ensures c in s && OnCycle(E, c) && Reaches(E, c, start)
  {
    var w := BackwardWalk(E, s, start, |s|);
    if Distinct(w) {
      DistinctBound(w, s);
      assert false;
    }
    var i, j :| 0 <= i < j < |w| && w[i] == w[j];
    c := w[i];
    assert WalkBetween(E, c, c, w[i..j + 1]);
    assert WalkBetween(E, c, start, w[i..]);
  }
}
