/** The provenance graph and the two closures asked of it. */
module Provenance {
  import opened Ids
  import opened Digraph

  /** The relations of PROV-O that are modelled. */
  datatype RelationKind = Used | WasGeneratedBy | WasAttributedTo | WasDerivedFrom | WasAssociatedWith

  type Attributes = map<string, string>

  datatype Relation = Relation(subject: Id, kind: RelationKind, obj: Id, attributes: Attributes)

  /** An entity, an activity or an agent: each table keys them by id. */
  datatype Node = Node(id: Id, kind: string, attributes: Attributes)

  predicate KeyedById(nodes: map<Id, Node>) {
    forall k :: k in nodes ==> nodes[k].id == k
  }

  /** What a provenance graph holds. */
  datatype Record = Record(entities: map<Id, Node>, activities: map<Id, Node>, agents: map<Id, Node>,
                           relations: seq<Relation>)

  /** The derivation edges, from what was derived to what it was derived from. */
  ghost function Derivations(relations: seq<Relation>): Edges {
    set r | r in relations && r.kind.WasDerivedFrom? :: (r.subject, r.obj)
  }

  class ProvGraph {
    var entities: map<Id, Node>
    var activities: map<Id, Node>
    var agents: map<Id, Node>
    var relations: seq<Relation>

    predicate Valid() reads this {
      KeyedById(entities) && KeyedById(activities) && KeyedById(agents)
    }

    function State(): Record reads this {
      Record(entities, activities, agents, relations)
    }

    constructor ()
      ensures Valid() && State() == Record(map[], map[], map[], [])
    {
      entities, activities, agents, relations := map[], map[], map[], [];
    }

    method AddEntity(id: Id, kind: string, attributes: Attributes) returns (entity: Node)
      requires Valid()
      modifies this`entities
      ensures Valid() && entity == Node(id, kind, attributes) && entities == old(entities)[id := entity]
    {
      entity := Node(id, kind, attributes);
      entities := entities[id := entity];
    }

    method Relate(subject: Id, kind: RelationKind, obj: Id, attributes: Attributes) returns (relation: Relation)
      requires Valid()
      modifies this`relations
      ensures Valid() && relation == Relation(subject, kind, obj, attributes)
      ensures relations == old(relations) + [relation]
    {
      relation := Relation(subject, kind, obj, attributes);
      relations := relations + [relation];
    }

    /** The sorted list of everything `entityId` goes back to by one derivation or more. */
    method AncestorsOf(entityId: Id) returns (ids: seq<Id>)
      ensures ids == Sorted(Ancestors(relations, entityId))
    {
      var seen := Closure(relations, entityId, true);
      AncestorsAreReached(relations, entityId);
      assert seen == Ancestors(relations, entityId);
      ids := SortIds(seen);
    }

    /** The sorted list of everything derived from `entityId` in one step or more. */
    method DescendantsOf(entityId: Id) returns (ids: seq<Id>)
      ensures ids == Sorted(Descendants(relations, entityId))
    {
      var seen := Closure(relations, entityId, false);
      DescendantsReachBack(relations, entityId);
      assert seen == Descendants(relations, entityId);
      ids := SortIds(seen);
    }
  }

  // ------------------------------------------------------------ what is asked

  ghost function Ancestors(relations: seq<Relation>, x: Id): set<Id> {
    set r | r in relations && ReachesPlus(Derivations(relations), x, r.obj) :: r.obj
  }

  ghost function Descendants(relations: seq<Relation>, x: Id): set<Id> {
    set r | r in relations && ReachesPlus(Derivations(relations), r.subject, x) :: r.subject
  }

  /** On any graph, cyclic ones included, the ancestors are exactly what one or more derivations reach. */
  lemma AncestorsExact(relations: seq<Relation>, x: Id, a: Id)
    ensures a in Ancestors(relations, x) <==> ReachesPlus(Derivations(relations), x, a)
  {
    if ReachesPlus(Derivations(relations), x, a) {
      var b := LastEdge(Derivations(relations), x, a);
      var r :| r in relations && r.kind.WasDerivedFrom? && (r.subject, r.obj) == (b, a);
    }
  }

  lemma DescendantsExact(relations: seq<Relation>, x: Id, d: Id)
    ensures d in Descendants(relations, x) <==> ReachesPlus(Derivations(relations), d, x)
  {
    if ReachesPlus(Derivations(relations), d, x) {
      var b := FirstEdge(Derivations(relations), d, x);
      var r :| r in relations && r.kind.WasDerivedFrom? && (r.subject, r.obj) == (d, b);
    }
  }

  /** x is an ancestor of y exactly when y is a descendant of x. */
  lemma AncestorDescendantDuality(relations: seq<Relation>, x: Id, y: Id)
    ensures x in Ancestors(relations, y) <==> y in Descendants(relations, x)
  {
    AncestorsExact(relations, y, x);
    DescendantsExact(relations, x, y);
  }

  /** An ancestor of an ancestor is an ancestor. */
  lemma AncestorsTransitive(relations: seq<Relation>, x: Id, y: Id)
    requires y in Ancestors(relations, x)
    ensures Ancestors(relations, y) <= Ancestors(relations, x)
  {
    var E := Derivations(relations);
    AncestorsExact(relations, x, y);
    var b := FirstEdge(E, x, y);
    forall z | z in Ancestors(relations, y) ensures z in Ancestors(relations, x) {
      AncestorsExact(relations, y, z);
      ReachesTrans(E, b, y, z);
      EdgeThen(E, x, b, z);
      AncestorsExact(relations, x, z);
    }
  }

  // -------------------------------------------------------------- the worklist

  function From(r: Relation, backwards: bool): Id { if backwards then r.subject else r.obj }

  function To(r: Relation, backwards: bool): Id { if backwards then r.obj else r.subject }

  /** The edges walked: derivations as they are, or turned around. */
  ghost function Walked(relations: seq<Relation>, backwards: bool): Edges {
    set r | r in relations && r.kind.WasDerivedFrom? :: (From(r, backwards), To(r, backwards))
  }

  ghost function Targets(E: Edges): set<Id> {
    set e | e in E :: e.1
  }

  lemma WalkedIsReversed(relations: seq<Relation>)
    ensures Walked(relations, true) == Derivations(relations)
    ensures Walked(relations, false) == Reversed(Derivations(relations))
  {
    forall a, b ensures (a, b) in Walked(relations, false) <==> (b, a) in Derivations(relations) {
      if (b, a) in Derivations(relations) {
        var r :| r in relations && r.kind.WasDerivedFrom? && (r.subject, r.obj) == (b, a);
        assert (From(r, false), To(r, false)) == (a, b);
      }
    }
  }

  lemma AncestorsAreReached(relations: seq<Relation>, x: Id)
    ensures forall a :: a in Ancestors(relations, x) <==> ReachesPlus(Walked(relations, true), x, a)
  {
    WalkedIsReversed(relations);
    forall a ensures a in Ancestors(relations, x) <==> ReachesPlus(Walked(relations, true), x, a) {
      AncestorsExact(relations, x, a);
    }
  }

  lemma DescendantsReachBack(relations: seq<Relation>, x: Id)
    ensures forall d :: d in Descendants(relations, x) <==> ReachesPlus(Walked(relations, false), x, d)
  {
    WalkedIsReversed(relations);
    forall d ensures d in Descendants(relations, x) <==> ReachesPlus(Walked(relations, false), x, d) {
      DescendantsExact(relations, x, d);
      ReachesPlusReversed(Derivations(relations), d, x);
    }
  }

  /** The successors of `current` in a prefix of the relations. */
  ghost function Next(relations: seq<Relation>, current: Id, backwards: bool): set<Id> {
    set r | r in relations && r.kind.WasDerivedFrom? && From(r, backwards) == current :: To(r, backwards)
  }

  lemma NextOneMore(relations: seq<Relation>, k: nat, current: Id, backwards: bool)
    requires k < |relations|
    ensures Next(relations[..k + 1], current, backwards)
         == Next(relations[..k], current, backwards)
          + (if relations[k].kind.WasDerivedFrom? && From(relations[k], backwards) == current
             then {To(relations[k], backwards)} else {})
  {
    assert relations[..k + 1] == relations[..k] + [relations[k]];
  }

  lemma NextAreEdges(relations: seq<Relation>, current: Id, backwards: bool)
    ensures forall b :: b in Next(relations, current, backwards) <==> (current, b) in Walked(relations, backwards)
  {
    forall b ensures b in Next(relations, current, backwards) <==> (current, b) in Walked(relations, backwards) {
      if (current, b) in Walked(relations, backwards) {
        var r :| r in relations && r.kind.WasDerivedFrom? && (From(r, backwards), To(r, backwards)) == (current, b);
      }
    }
  }

  ghost function Elements(s: seq<Id>): set<Id> {
    set x | x in s
  }

  /** One pass over the relations: the unseen successors of `current` are seen and stacked. */
  method Visit(relations: seq<Relation>, backwards: bool, current: Id, seen0: set<Id>, stack0: seq<Id>)
    returns (seen: set<Id>, stack: seq<Id>)
    ensures seen == seen0 + Next(relations, current, backwards)
    ensures Elements(stack) == Elements(stack0) + (seen - seen0)
    ensures seen == seen0 ==> stack == stack0
  {
    seen, stack := seen0, stack0;
    for k := 0 to |relations|
      invariant seen == seen0 + Next(relations[..k], current, backwards)
      invariant Elements(stack) == Elements(stack0) + (seen - seen0)
      invariant seen0 <= seen && (seen == seen0 ==> stack == stack0)
    {
      NextOneMore(relations, k, current, backwards);
      var r := relations[k];
      if r.kind.WasDerivedFrom? && From(r, backwards) == current && To(r, backwards) !in seen {
        seen, stack := seen + {To(r, backwards)}, Push(stack, To(r, backwards));
      }
    }
    assert relations[..|relations|] == relations;
  }

  function Push(stack: seq<Id>, x: Id): (r: seq<Id>)
    ensures Elements(r) == Elements(stack) + {x}
  {
    assert forall y :: y in stack + [x] <==> y in stack || y == x;
    stack + [x]
  }

  lemma Popped(stack: seq<Id>)
    requires stack != []
    ensures Elements(stack) == Elements(stack[..|stack| - 1]) + {stack[|stack| - 1]}
  {
    assert stack == stack[..|stack| - 1] + [stack[|stack| - 1]];
  }

  /** Everything reached from `start` by one edge or more. */
  method Closure(relations: seq<Relation>, start: Id, backwards: bool) returns (seen: set<Id>)
    ensures forall x :: x in seen <==> ReachesPlus(Walked(relations, backwards), start, x)
  {
    ghost var E := Walked(relations, backwards);
    seen := {};
    var stack := [start];
    ghost var done: set<Id> := {};
    while stack != []
      invariant seen + {start} == done + Elements(stack)
      invariant seen <= Targets(E)
      invariant forall x :: x in seen ==> ReachesPlus(E, start, x)
      invariant forall a, b :: a in done && (a, b) in E ==> b in seen
      decreases Targets(E) - seen, |stack|
    {
      var current := stack[|stack| - 1];
      Popped(stack);
      stack := stack[..|stack| - 1];
      NextAreEdges(relations, current, backwards);
      NextReached(E, start, current);
      ghost var before := seen;
      seen, stack := Visit(relations, backwards, current, seen, stack);
      done := done + {current};
      assert forall b :: b in seen - before ==> (current, b) in E && b in Targets(E);
    }
    ClosedIsAll(E, start, seen);
  }

  lemma NextReached(E: Edges, start: Id, current: Id)
    ensures current == start || ReachesPlus(E, start, current) ==>
              forall b :: (current, b) in E ==> ReachesPlus(E, start, b)
  {
    if current == start || ReachesPlus(E, start, current) {
      ReachesRefl(E, start);
      forall b | (current, b) in E ensures ReachesPlus(E, start, b) {
        ThenEdge(E, start, current, b);
      }
    }
  }

  lemma ClosedIsAll(E: Edges, start: Id, seen: set<Id>)
    requires forall a, b :: (a in seen || a == start) && (a, b) in E ==> b in seen
    ensures forall x :: ReachesPlus(E, start, x) ==> x in seen
  {
    forall x | ReachesPlus(E, start, x) ensures x in seen {
      var b := FirstEdge(E, start, x);
      ClosedKeepsReach(E, seen, b, x);
    }
  }
}
