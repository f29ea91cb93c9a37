/** Route tables, what one emission does, and what replaying held emissions does. */
module Routing {
  import opened Ids
  import opened Models
  import opened EventBus

  datatype RouteBinding = RouteBinding(
    connectionId: Id, target: string, payloadType: string, mode: RouteMode, policy: ConnectionPolicy)

  type RouteTable = map<string, seq<RouteBinding>>

  datatype BufferedRoute = BufferedRoute(source: string, payload: string, asyncMode: bool)

  /** One call of a port handler. */
  datatype Call = Call(connectionId: Id, target: string, payload: string)

  /**
   * What a handler does with a payload: it publishes events one after the
   * other and then returns a value or raises.
   */
  datatype Reaction = Reaction(publishes: seq<Event>, value: string, raises: bool)

  type Handler = string -> Reaction

  // ------------------------------------------------------------ compilation

  function BindingOf(e: ConnectionEdge): RouteBinding {
    RouteBinding(e.connectionId, e.target, e.payload, e.mode, e.policy)
  }

  /** Direct scan: the bindings of the connections leaving `source`, in edge order. */
  function Scan(edges: seq<ConnectionEdge>, source: string): seq<RouteBinding> {
    if edges == [] then []
    else
      var last := edges[|edges| - 1];
      Scan(edges[..|edges| - 1], source) + (if last.source == source then [BindingOf(last)] else [])
  }

  function Sources(edges: seq<ConnectionEdge>): set<string> {
    set e | e in edges :: e.source
  }

  function Compiled(edges: seq<ConnectionEdge>): RouteTable {
    map s | s in Sources(edges) :: Scan(edges, s)
  }

  function Lookup(table: RouteTable, source: string): seq<RouteBinding> {
    if source in table then table[source] else []
  }

  lemma {:induction false} ScanOfStranger(edges: seq<ConnectionEdge>, source: string)
    requires source !in Sources(edges)
    ensures Scan(edges, source) == []
  {
    if edges == [] {
    } else {
      assert edges[|edges| - 1] in edges;
      assert forall e :: e in edges[..|edges| - 1] ==> e in edges;
      ScanOfStranger(edges[..|edges| - 1], source);
    }
  }

  /** The connections that leave a source, in edge order. */
  function Leaving(edges: seq<ConnectionEdge>, source: string): seq<ConnectionEdge> {
    if edges == [] then []
    else
      var last := edges[|edges| - 1];
      Leaving(edges[..|edges| - 1], source) + (if last.source == source then [last] else [])
  }

  predicate Binds(b: RouteBinding, e: ConnectionEdge) {
    && b.connectionId == e.connectionId && b.target == e.target && b.payloadType == e.payload
    && b.mode == e.mode && b.policy == e.policy
  }

  /** What the engine routes for a source: each connection that leaves it, in edge order, with all it says. */
  lemma {:induction false} RoutesAreConnections(edges: seq<ConnectionEdge>, source: string)
    ensures var routes, leaving := Lookup(Compiled(edges), source), Leaving(edges, source);
            && |routes| == |leaving|
            && forall i :: 0 <= i < |routes| ==> Binds(routes[i], leaving[i]) && leaving[i].source == source
  {
    LookupIsScan(edges, source);
    ScanIsLeaving(edges, source);
  }

  lemma {:induction false} ScanIsLeaving(edges: seq<ConnectionEdge>, source: string)
    ensures |Scan(edges, source)| == |Leaving(edges, source)|
    ensures forall i :: 0 <= i < |Leaving(edges, source)| ==>
              && Scan(edges, source)[i] == BindingOf(Leaving(edges, source)[i])
              && Leaving(edges, source)[i].source == source
  {
    if edges == [] {
    } else {
      ScanIsLeaving(edges[..|edges| - 1], source);
    }
  }

  /** The compiled table answers every lookup like the scan. */
  lemma LookupIsScan(edges: seq<ConnectionEdge>, source: string)
    ensures Lookup(Compiled(edges), source) == Scan(edges, source)
  {
    if source !in Sources(edges) { ScanOfStranger(edges, source); }
  }

  lemma CompileOneMore(edges: seq<ConnectionEdge>, e: ConnectionEdge)
    ensures Compiled(edges + [e]) == Compiled(edges)[e.source := Lookup(Compiled(edges), e.source) + [BindingOf(e)]]
  {
    var longer := edges + [e];
    var updated := Compiled(edges)[e.source := Lookup(Compiled(edges), e.source) + [BindingOf(e)]];
    SourcesOneMore(edges, e);
    LookupIsScan(edges, e.source);
    assert Compiled(longer).Keys == updated.Keys;
    forall s | s in updated ensures Compiled(longer)[s] == updated[s] {
      ScanOneMore(edges, e, s);
    }
  }

  lemma SourcesOneMore(edges: seq<ConnectionEdge>, e: ConnectionEdge)
    ensures Sources(edges + [e]) == Sources(edges) + {e.source}
  {
  }

  lemma ScanOneMore(edges: seq<ConnectionEdge>, e: ConnectionEdge, source: string)
    ensures Scan(edges + [e], source) == Scan(edges, source) + (if e.source == source then [BindingOf(e)] else [])
  {
    var longer := edges + [e];
    assert longer[..|longer| - 1] == edges;
  }

  lemma TakeOneMore(edges: seq<ConnectionEdge>, k: nat)
    requires k < |edges|
    ensures edges[..k] + [edges[k]] == edges[..k + 1]
  {
  }

  method CompileRouteTable(g: GraphSnapshot) returns (table: RouteTable)
    ensures table == Compiled(g.edges)
  {
    table := map[];
    for k := 0 to |g.edges|
      invariant table == Compiled(g.edges[..k])
    {
      var e := g.edges[k];
      CompileOneMore(g.edges[..k], e);
      TakeOneMore(g.edges, k);
      table := table[e.source := (if e.source in table then table[e.source] else []) + [BindingOf(e)]];
    }
    assert g.edges[..|g.edges|] == g.edges;
  }

  // --------------------------------------------------------------- dispatch

  datatype World = World(calls: seq<Call>, bus: BusState)

  datatype Emission = Emission(world: World, results: seq<string>, raised: bool)

  /** Publishing stops at the first event that a full buffer refuses or a subscriber raises on. */
  function AllPublished(b: BusState, events: seq<Event>): (r: (BusState, bool))
    decreases |events|
  {
    if events == [] then (b, true)
    else
      var (c, ok) := AllPublished(b, events[..|events| - 1]);
      if !ok then (c, false) else AfterPublish(c, events[|events| - 1])
  }

  function Invoked(w: World, binding: RouteBinding, handler: Handler, payload: string): (r: (World, bool)) {
    var reaction := handler(payload);
    var (bus, ok) := AllPublished(w.bus, reaction.publishes);
    (World(w.calls + [Call(binding.connectionId, binding.target, payload)], bus), ok && !reaction.raises)
  }

  /** A failing shadow handler is ignored; any other failing handler ends the emission. */
  function Bound(prev: Emission, binding: RouteBinding, handlers: map<string, Handler>, payload: string): Emission {
    if prev.raised || binding.target !in handlers then prev
    else
      var (w, ok) := Invoked(prev.world, binding, handlers[binding.target], payload);
      if binding.mode == ShadowMode then prev.(world := w)
      else if ok then Emission(w, prev.results + [handlers[binding.target](payload).value], false)
      else Emission(w, prev.results, true)
  }

  function Emitted(w: World, bindings: seq<RouteBinding>, handlers: map<string, Handler>, payload: string): Emission
    decreases |bindings|
  {
    if bindings == [] then Emission(w, [], false)
    else Bound(Emitted(w, bindings[..|bindings| - 1], handlers, payload), bindings[|bindings| - 1], handlers, payload)
  }

  /** Replaying held emissions stops at the first one that raises. */
  function RoutesReplayed(
    w: World, table: RouteTable, handlers: map<string, Handler>, routes: seq<BufferedRoute>): (r: (World, bool))
    decreases |routes|
  {
    if routes == [] then (w, true)
    else
      var last := routes[|routes| - 1];
      var (v, ok) := RoutesReplayed(w, table, handlers, routes[..|routes| - 1]);
      if !ok then (v, false)
      else
        var emission := Emitted(v, Lookup(table, last.source), handlers, last.payload);
        (emission.world, !emission.raised)
  }

  // ------------------------------------------------- what an emission returns

  predicate ReturnsOn(binding: RouteBinding, handlers: map<string, Handler>, payload: string) {
    binding.mode != ShadowMode ==>
      binding.target in handlers && !handlers[binding.target](payload).raises
  }

  /** The values of the non-shadow bindings, in order. */
  function Values(bindings: seq<RouteBinding>, handlers: map<string, Handler>, payload: string): seq<string>
    requires forall b :: b in bindings ==> ReturnsOn(b, handlers, payload)
    decreases |bindings|
  {
    if bindings == [] then []
    else
      var last := bindings[|bindings| - 1];
      assert forall b :: b in bindings[..|bindings| - 1] ==> b in bindings;
      assert ReturnsOn(last, handlers, payload);
      Values(bindings[..|bindings| - 1], handlers, payload)
      + (if last.mode == ShadowMode then [] else [handlers[last.target](payload).value])
  }

  /** The handler calls of an emission that runs to its end: one per binding with a handler, in order. */
  function CallsOf(bindings: seq<RouteBinding>, handlers: map<string, Handler>, payload: string): seq<Call>
    decreases |bindings|
  {
    if bindings == [] then []
    else
      var last := bindings[|bindings| - 1];
      CallsOf(bindings[..|bindings| - 1], handlers, payload)
      + (if last.target in handlers then [Call(last.connectionId, last.target, payload)] else [])
  }

  function NonShadow(bindings: seq<RouteBinding>): nat {
    if bindings == [] then 0
    else NonShadow(bindings[..|bindings| - 1]) + (if bindings[|bindings| - 1].mode == ShadowMode then 0 else 1)
  }

  /** Outside a drain, publishing returns exactly when no subscriber raises on any of the events. */
  lemma {:induction false} PublishingOutsideDrain(b: BusState, events: seq<Event>)
    requires b.epoch.None?
    ensures var (c, ok) := AllPublished(b, events);
            && c.epoch.None? && c.subscribers == b.subscribers
            && (ok <==> AllHeard(b.subscribers, events))
            && (ok ==> c.history == b.history + events)
    decreases |events|
  {
    if events == [] {
    } else {
      var init := events[..|events| - 1];
      PublishingOutsideDrain(b, init);
      assert events == init + [events[|events| - 1]];
      assert AllHeard(b.subscribers, events)
        <==> AllHeard(b.subscribers, init) && Heard(b.subscribers, events[|events| - 1]);
    }
  }

  /** No subscriber raises on what the non-shadow handler of this binding publishes. */
  predicate HeardOn(
    binding: RouteBinding, handlers: map<string, Handler>, payload: string, subscribers: Subscriptions)
  {
    binding.mode != ShadowMode && binding.target in handlers ==>
      AllHeard(subscribers, handlers[binding.target](payload).publishes)
  }

  /**
   * With a handler on every non-shadow target, none of which raises or publishes what a subscriber raises
   * on, an emission outside a drain returns one value per non-shadow binding in order, whatever the shadow
   * handlers do.
   */
  lemma {:induction false} EmissionReturns(
    w: World, bindings: seq<RouteBinding>, handlers: map<string, Handler>, payload: string)
    requires w.bus.epoch.None?
    requires forall b :: b in bindings ==>
               ReturnsOn(b, handlers, payload) && HeardOn(b, handlers, payload, w.bus.subscribers)
    ensures var e := Emitted(w, bindings, handlers, payload);
            && !e.raised && e.world.bus.epoch.None? && e.world.bus.subscribers == w.bus.subscribers
            && e.results == Values(bindings, handlers, payload)
            && |e.results| == NonShadow(bindings)
    decreases |bindings|
  {
    if bindings == [] {
    } else {
      var init, last := bindings[..|bindings| - 1], bindings[|bindings| - 1];
      assert last in bindings && forall b :: b in init ==> b in bindings;
      EmissionReturns(w, init, handlers, payload);
      if last.target in handlers {
        assert HeardOn(last, handlers, payload, w.bus.subscribers);
        PublishingOutsideDrain(Emitted(w, init, handlers, payload).world.bus, handlers[last.target](payload).publishes);
      }
    }
  }

  /** Handlers that agree wherever they are not shadows. */
  predicate AgreeUnshadowed(
    bindings: seq<RouteBinding>, these: map<string, Handler>, those: map<string, Handler>, payload: string)
  {
    forall b :: b in bindings && b.mode != ShadowMode ==>
      && (b.target in these <==> b.target in those)
      && (b.target in these ==> these[b.target](payload) == those[b.target](payload))
  }

  /**
   * What shadow handlers do, publish or raise is of no consequence for the sender: outside a drain, an
   * emission raises with the one set exactly when it does with the other, and returns the same values.
   */
  lemma {:induction false} ShadowsDoNotMatter(
    v: World, w: World, bindings: seq<RouteBinding>, these: map<string, Handler>, those: map<string, Handler>,
    payload: string)
    requires v.bus.epoch.None? && w.bus.epoch.None? && v.bus.subscribers == w.bus.subscribers
    requires AgreeUnshadowed(bindings, these, those, payload)
    ensures var e, f := Emitted(v, bindings, these, payload), Emitted(w, bindings, those, payload);
            && e.raised == f.raised && e.results == f.results
            && e.world.bus.epoch.None? && f.world.bus.epoch.None?
            && e.world.bus.subscribers == f.world.bus.subscribers == v.bus.subscribers
    decreases |bindings|
  {
    if bindings == [] {
    } else {
      var init, last := bindings[..|bindings| - 1], bindings[|bindings| - 1];
      assert last in bindings && forall b :: b in init ==> b in bindings;
      ShadowsDoNotMatter(v, w, init, these, those, payload);
      if last.target in these {
        PublishingOutsideDrain(Emitted(v, init, these, payload).world.bus, these[last.target](payload).publishes);
      }
      if last.target in those {
        PublishingOutsideDrain(Emitted(w, init, those, payload).world.bus, those[last.target](payload).publishes);
      }
    }
  }

  /** An emission that does not raise calls every handler bound to it once, in order. */
  lemma {:induction false} EmissionCalls(
    w: World, bindings: seq<RouteBinding>, handlers: map<string, Handler>, payload: string)
    ensures var e := Emitted(w, bindings, handlers, payload);
            && w.calls <= e.world.calls
            && (!e.raised ==> e.world.calls == w.calls + CallsOf(bindings, handlers, payload))
    decreases |bindings|
  {
    if bindings == [] {
    } else {
      EmissionCalls(w, bindings[..|bindings| - 1], handlers, payload);
    }
  }

  function AllCalls(table: RouteTable, handlers: map<string, Handler>, routes: seq<BufferedRoute>): seq<Call>
    decreases |routes|
  {
    if routes == [] then []
    else
      var last := routes[|routes| - 1];
      AllCalls(table, handlers, routes[..|routes| - 1]) + CallsOf(Lookup(table, last.source), handlers, last.payload)
  }

  /** A replay that runs to its end dispatches every held emission once, in order, against `table`. */
  lemma {:induction false} ReplayCalls(
    w: World, table: RouteTable, handlers: map<string, Handler>, routes: seq<BufferedRoute>)
    ensures var (v, ok) := RoutesReplayed(w, table, handlers, routes);
            && w.calls <= v.calls
            && (ok ==> v.calls == w.calls + AllCalls(table, handlers, routes))
    decreases |routes|
  {
    if routes == [] {
    } else {
      var init, last := routes[..|routes| - 1], routes[|routes| - 1];
      ReplayCalls(w, table, handlers, init);
      var (v, ok) := RoutesReplayed(w, table, handlers, init);
      EmissionCalls(v, Lookup(table, last.source), handlers, last.payload);
    }
  }
}
