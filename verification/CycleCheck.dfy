/** The white/grey/black depth-first search inside `validate_graph`. */
module CycleCheck {
  import opened Ids
  import opened Digraph

  type AdjacencyLists = map<Id, seq<Id>>

  ghost predicate Successor(adjacency: AdjacencyLists, a: Id, b: Id) {
    a in adjacency && b in adjacency[a]
  }

  /** The adjacency lists hold exactly the edges of `E`. */
  ghost predicate Lists(adjacency: AdjacencyLists, E: Edges) {
    forall a, b :: (a, b) in E <==> Successor(adjacency, a, b)
  }

  function Appended(m: AdjacencyLists, k: Id, v: Id): AdjacencyLists {
    m[k := (if k in m then m[k] else []) + [v]]
  }

  lemma AppendedSuccessors(m: AdjacencyLists, k: Id, v: Id)
    ensures forall a, b :: Successor(Appended(m, k, v), a, b) <==> Successor(m, a, b) || (a == k && b == v)
  {
  }

  lemma AppendKeepsOrder(E: Edges, order: seq<Id>, a: Id)
    requires SuccessorsFirst(E, order)
    requires forall b :: (a, b) in E ==> b in order
    ensures SuccessorsFirst(E, order + [a])
  {
    var longer := order + [a];
    forall i, b | 0 <= i < |longer| && (longer[i], b) in E ensures b in longer[..i] {
      assert i < |order| ==> longer[..i] == order[..i] && longer[i] == order[i];
      assert i == |order| ==> longer[..i] == order;
    }
  }

  class CycleSearch {
    const adjacency: AdjacencyLists
    const nodes: set<Id>
    ghost const E: Edges
    var visiting: set<Id>
    var visited: set<Id>
    ghost var finished: seq<Id>

    constructor (adjacency: AdjacencyLists, nodes: set<Id>, ghost E: Edges)
      requires Lists(adjacency, E)
      requires forall a, b :: (a, b) in E ==> a in nodes && b in nodes
      ensures Valid() && visiting == {}
      ensures this.nodes == nodes && this.E == E
    {
      this.adjacency, this.nodes, this.E := adjacency, nodes, E;
      visiting, visited, finished := {}, {}, [];
    }

    /** Black nodes are finished after all their successors; grey and black are disjoint. */
    ghost predicate Valid()
      reads this
    {
      && Lists(adjacency, E)
      && (forall a, b :: (a, b) in E ==> a in nodes && b in nodes)
      && visiting <= nodes && visited <= nodes
      && visiting !! visited
      && (forall a :: a in finished <==> a in visited)
      && SuccessorsFirst(E, finished)
    }

    method HasCycle(node: Id) returns (found: bool)
      requires Valid()
      requires node in nodes && node !in visiting && node !in visited
      requires forall g :: g in visiting ==> Reaches(E, g, node)
      modifies this
      ensures found ==> exists c :: c in nodes && OnCycle(E, c)
      ensures !found ==> Valid() && visiting == old(visiting)
      ensures !found ==> old(visited) + {node} <= visited
      decreases nodes - visiting - visited
    {
      ghost var unseen := nodes - visiting - visited;
      assert node in unseen;
      visiting := visiting + {node};
      ReachesRefl(E, node);
      var neighbors := if node in adjacency then adjacency[node] else [];
      for i := 0 to |neighbors|
        invariant Valid() && visiting == old(visiting) + {node}
        invariant old(visited) <= visited
        invariant forall j :: 0 <= j < i ==> neighbors[j] in visited
      {
        var neighbor := neighbors[i];
        assert Successor(adjacency, node, neighbor);
        if neighbor in visiting {
          EdgeThen(E, node, neighbor, node);
          assert OnCycle(E, node);
          return true;
        }
        if neighbor !in visited {
          forall g | g in visiting ensures Reaches(E, g, neighbor) {
            ThenEdge(E, g, node, neighbor);
          }
          assert nodes - visiting - visited <= unseen - {node};
          var deeper := HasCycle(neighbor);
          if deeper {
            return true;
          }
        }
      }
      visiting := visiting - {node};
      visited := visited + {node};
      forall b | (node, b) in E ensures b in finished {
        assert Successor(adjacency, node, b);
      }
      AppendKeepsOrder(E, finished, node);
      finished := finished + [node];
      found := false;
    }
  }

  /**
   * The search over all nodes, in whatever order the set iteration yields
   * them: it answers with a starting node exactly when there is a cycle.
   */
  method FindCycle(adjacency: AdjacencyLists, nodes: set<Id>, ghost E: Edges) returns (found: bool, start: Id)
    requires Lists(adjacency, E)
    requires forall a, b :: (a, b) in E ==> a in nodes && b in nodes
    ensures found <==> !Acyclic(E)
    ensures found ==> start in nodes
  {
    var search := new CycleSearch(adjacency, nodes, E);
    var pending := nodes;
    found, start := false, "";
    while pending != {}
      invariant search.Valid() && search.visiting == {}
      invariant search.nodes == nodes && search.E == E
      invariant pending <= nodes
      invariant nodes - pending <= search.visited
      decreases pending
    {
      var component :| component in pending;
      pending := pending - {component};
      if component !in search.visited {
        var hit := search.HasCycle(component);
        if hit {
          return true, component;
        }
      }
    }
    forall a ensures !OnCycle(E, a) {
      if OnCycle(E, a) {
        var b := FirstEdge(E, a, a);
        assert a in search.visited;
        SuccessorsFirstNoCycle(E, search.finished, a);
      }
    }
  }
}
