/** The connection engine: staging, committing, rolling back and routing. */
module ConnectionEngine {
  import opened Ids
  import opened Models
  import opened GraphShape
  import opened Validators
  import opened GraphVersions
  import opened EventBus
  import opened Routing

  datatype EngineState = EngineState(
    routeTable: RouteTable,
    handlers: map<string, Handler>,
    epoch: Option<string>,
    buffer: seq<BufferedRoute>,
    maxBuffered: int,
    inflight: int,
    calls: seq<Call>)

  // --------------------------------------------------------- what steps do

  function RouteDrainBegun(e: EngineState, epoch: string, maxBuffered: int): EngineState {
    e.(epoch := Some(epoch), buffer := [], maxBuffered := maxBuffered)
  }

  function RouteDrainLeft(e: EngineState): EngineState {
    e.(epoch := None, buffer := [], maxBuffered := 0)
  }

  predicate AcceptsRoute(e: EngineState) {
    e.epoch.Some? ==> |e.buffer| < e.maxBuffered
  }

  function Buffered(e: EngineState, r: BufferedRoute): EngineState {
    e.(buffer := e.buffer + [r])
  }

  /** What `end_drain` leaves behind: the engine, the bus its handlers publish on, and whether it returned. */
  function RouteDrainEnded(e: EngineState, bus: BusState, replay: bool): (r: (EngineState, BusState, bool)) {
    if replay then
      var (w, ok) := RoutesReplayed(World(e.calls, bus), e.routeTable, e.handlers, e.buffer);
      (RouteDrainLeft(e).(calls := w.calls), w.bus, ok)
    else (RouteDrainLeft(e), bus, true)
  }

  function EmissionOf(e: EngineState, bus: BusState, source: string, payload: string): Emission {
    Emitted(World(e.calls, bus), Lookup(e.routeTable, source), e.handlers, payload)
  }

  function MissingTargets(edges: seq<ConnectionEdge>, handled: set<string>): set<string> {
    set e | e in edges && e.mode != ShadowMode && e.target !in handled :: e.target
  }

  /** The part of the missing targets found while looking at some of the sources. */
  function MissingFrom(edges: seq<ConnectionEdge>, sources: set<string>, handled: set<string>): set<string> {
    set e | e in edges && e.source in sources && e.mode != ShadowMode && e.target !in handled :: e.target
  }

  function Unhandled(bindings: seq<RouteBinding>, handled: set<string>): set<string> {
    set b | b in bindings && b.mode != ShadowMode && b.target !in handled :: b.target
  }

  lemma MissingFromNone(edges: seq<ConnectionEdge>, handled: set<string>)
    ensures MissingFrom(edges, {}, handled) == {}
  {
  }

  lemma MissingFromMore(edges: seq<ConnectionEdge>, done: set<string>, source: string, handled: set<string>)
    ensures MissingFrom(edges, done + {source}, handled)
            == MissingFrom(edges, done, handled) + Unhandled(Scan(edges, source), handled)
  {
    ScanHolds(edges, source);
    forall e | e in edges && e.source == source ensures BindingOf(e) in Scan(edges, source) {
    }
  }

  lemma MissingFromAll(edges: seq<ConnectionEdge>, handled: set<string>)
    ensures MissingFrom(edges, Sources(edges), handled) == MissingTargets(edges, handled)
  {
  }

  // ------------------------------------------------------------- the engine

  class ConnectionEngine {
    const registry: ComponentRegistry
    const store: GraphVersionStore
    const bus: EventBus
    var routeTable: RouteTable
    var handlers: map<string, Handler>
    var drainEpoch: Option<string>
    var drainBuffer: seq<BufferedRoute>
    var drainMaxBuffered: int
    var inflight: int
    var calls: seq<Call>

    constructor (registry: ComponentRegistry, store: GraphVersionStore, bus: EventBus)
      ensures this.registry == registry && this.store == store && this.bus == bus
      ensures State() == EngineState(map[], map[], None, [], 0, 0, [])
    {
      this.registry, this.store, this.bus := registry, store, bus;
      routeTable, handlers := map[], map[];
      drainEpoch, drainBuffer, drainMaxBuffered := None, [], 0;
      inflight, calls := 0, [];
    }

    function State(): EngineState
      reads this
    {
      EngineState(routeTable, handlers, drainEpoch, drainBuffer, drainMaxBuffered, inflight, calls)
    }

    // ---------------------------------------------------------------- graph

    method MissingRequiredHandlers(g: GraphSnapshot) returns (missing: seq<string>)
      ensures missing == Sorted(MissingTargets(g.edges, handlers.Keys))
    {
      var table := CompileRouteTable(g);
      ghost var sources, handled := Sources(g.edges), handlers.Keys;
      assert table.Keys == sources;
      MissingFromNone(g.edges, handled);
      var found: set<string> := {};
      var pending := table.Keys;
      ghost var done: set<string> := {};
      while pending != {}
        invariant done + pending == sources
        invariant found == MissingFrom(g.edges, done, handled)
        decreases pending
      {
        var source :| source in pending;
        var targets := UnhandledTargets(table[source]);
        MissingFromMore(g.edges, done, source, handled);
        found := found + targets;
        done := done + {source};
        pending := pending - {source};
      }
      assert done == sources;
      MissingFromAll(g.edges, handled);
      missing := SortIds(found);
    }

    method UnhandledTargets(bindings: seq<RouteBinding>) returns (targets: set<string>)
      ensures targets == Unhandled(bindings, handlers.Keys)
    {
      targets := {};
      for k := 0 to |bindings|
        invariant targets == Unhandled(bindings[..k], handlers.Keys)
      {
        assert bindings[..k + 1] == bindings[..k] + [bindings[k]];
        if bindings[k].mode != ShadowMode && bindings[k].target !in handlers {
          targets := targets + {bindings[k].target};
        }
      }
      assert bindings[..|bindings|] == bindings;
    }

    method LoadGraph(g: GraphSnapshot)
      modifies this`routeTable, registry`activeGraph
      ensures routeTable == Compiled(g.edges)
      ensures registry.activeGraph == Some(g)
    {
      routeTable := CompileRouteTable(g);
      registry.activeGraph := Some(g);
    }

    method Stage(pending: PendingConnectionSet) returns (candidate: GraphSnapshot, report: ValidationReport)
      modifies registry`candidateGraph
      ensures IsNextVersion(Known(store.State()), candidate.graphVersion)
      ensures candidate.nodes == pending.nodes && candidate.edges == pending.edges
      ensures registry.candidateGraph == Some(candidate)
      ensures ExactReport(registry.catalogue, registry.activeGraph, candidate, report)
    {
      var version := store.NextVersion();
      candidate := GraphSnapshot(version, pending.nodes, pending.edges);
      registry.candidateGraph := Some(candidate);
      report := ValidateGraph(candidate, registry);
    }

    method Commit(candidateId: string, g: GraphSnapshot, report: ValidationReport) returns (version: int)
      modifies this`routeTable, store, registry`activeGraph
      ensures store.candidates == old(store.candidates) + [CandidateRecord(candidateId, g, report, report.valid, false)]
      ensures store.State() == if report.valid then Committed(old(store.State()), g) else old(store.State())
      ensures registry.activeGraph == if report.valid then Some(g) else old(registry.activeGraph)
      ensures routeTable == if report.valid then Compiled(g.edges) else old(routeTable)
      ensures version == if report.valid then g.graphVersion
                         else if old(store.active).Some? then old(store.active).value else 0
    {
      store.SaveCandidate(CandidateRecord(candidateId, g, report, report.valid, false));
      if !report.valid {
        return if store.active.Some? then store.active.value else 0;
      }
      store.Commit(g);
      LoadGraph(g);
      version := g.graphVersion;
    }

    method DiscardCandidate(candidateId: string, g: GraphSnapshot, report: ValidationReport, deferred: bool)
      modifies store`candidates, registry`candidateGraph
      ensures store.candidates == old(store.candidates) + [CandidateRecord(candidateId, g, report, false, deferred)]
      ensures registry.candidateGraph == None
    {
      store.SaveCandidate(CandidateRecord(candidateId, g, report, false, deferred));
      registry.candidateGraph := None;
    }

    /** None when the store raises: then nothing changes. */
    method Rollback() returns (r: Option<GraphSnapshot>)
      modifies this`routeTable, store, registry`activeGraph
      ensures store.State() == RolledBack(old(store.State()))
      ensures store.candidates == old(store.candidates)
      ensures r == if CanRollBack(old(store.State())) then Some(RollbackSnapshot(old(store.State()))) else None
      ensures registry.activeGraph == if r.Some? then r else old(registry.activeGraph)
      ensures routeTable == if r.Some? then Compiled(r.value.edges) else old(routeTable)
    {
      r := store.Rollback();
      if r.Some? {
        LoadGraph(r.value);
      }
    }

    // -------------------------------------------------------------- routing

    method RegisterHandler(target: string, handler: Handler)
      modifies this`handlers
      ensures handlers == old(handlers)[target := handler]
    {
      handlers := handlers[target := handler];
    }

    method UnregisterHandler(target: string)
      modifies this`handlers
      ensures handlers == old(handlers) - {target}
    {
      handlers := handlers - {target};
    }

    /** False when a drain is already active: the call raises and changes nothing. */
    method BeginDrain(epoch: string, maxBuffered: int) returns (ok: bool)
      modifies this
      ensures ok <==> old(drainEpoch).None?
      ensures State() == if ok then RouteDrainBegun(old(State()), epoch, maxBuffered) else old(State())
    {
      if drainEpoch.Some? {
        return false;
      }
      drainEpoch, drainMaxBuffered, drainBuffer := Some(epoch), maxBuffered, [];
      ok := true;
    }

    /** `ok` is false when a replayed emission raises: what was held after it is lost. */
    method EndDrain(replay: bool) returns (ok: bool, count: nat)
      modifies this, bus
      ensures (State(), bus.State(), ok) == RouteDrainEnded(old(State()), old(bus.State()), replay)
      ensures count == |old(drainBuffer)|
    {
      var buffered := drainBuffer;
      count := |buffered|;
      drainEpoch, drainBuffer, drainMaxBuffered := None, [], 0;
      ghost var w0 := World(calls, bus.State());
      if replay {
        for i := 0 to |buffered|
          invariant State() == RouteDrainLeft(old(State())).(calls := calls)
          invariant RoutesReplayed(w0, routeTable, handlers, buffered[..i]) == (World(calls, bus.State()), true)
        {
          assert buffered[..i + 1][..i] == buffered[..i];
          var accepted, results := Emit(buffered[i].source, buffered[i].payload, buffered[i].asyncMode);
          if !accepted {
            ReplayStops(w0, routeTable, handlers, buffered, i + 1);
            return false, count;
          }
        }
        assert buffered[..|buffered|] == buffered;
      }
      ok := true;
    }

    /** False while emissions are still in flight: the call times out. */
    method WaitForInflight() returns (ok: bool)
      ensures ok <==> inflight == 0
    {
      ok := inflight == 0;
    }

    /**
     * `emit` and `emit_async`. `ok` is false when the call raises, because the
     * buffer of an active drain is full or a non-shadow handler failed.
     */
    method Emit(source: string, payload: string, asyncMode: bool) returns (ok: bool, results: seq<string>)
      modifies this, bus
      ensures old(drainEpoch).Some? ==>
                && ok == AcceptsRoute(old(State())) && results == []
                && State() == (if ok then Buffered(old(State()), BufferedRoute(source, payload, asyncMode))
                               else old(State()))
                && bus.State() == old(bus.State())
      ensures old(drainEpoch).None? ==>
                var emission := EmissionOf(old(State()), old(bus.State()), source, payload);
                && ok == !emission.raised && (ok ==> results == emission.results)
                && State() == old(State()).(calls := emission.world.calls)
                && bus.State() == emission.world.bus
    {
      results := [];
      if drainEpoch.Some? {
        if |drainBuffer| >= drainMaxBuffered {
          return false, [];
        }
        drainBuffer := drainBuffer + [BufferedRoute(source, payload, asyncMode)];
        return true, [];
      }
      inflight := inflight + 1;
      ok, results := EmitWithRouteTable(routeTable, source, payload);
      inflight := inflight - 1;
    }

    method EmitWithRouteTable(table: RouteTable, source: string, payload: string)
      returns (ok: bool, results: seq<string>)
      modifies this`calls, bus
      ensures var emission := Emitted(World(old(calls), old(bus.State())), Lookup(table, source), handlers, payload);
              && ok == !emission.raised && results == emission.results
              && calls == emission.world.calls && bus.State() == emission.world.bus
    {
      results := [];
      var bindings := if source in table then table[source] else [];
      ghost var w0 := World(calls, bus.State());
      for k := 0 to |bindings|
        invariant Emitted(w0, bindings[..k], handlers, payload) == Emission(World(calls, bus.State()), results, false)
      {
        var binding := bindings[k];
        assert bindings[..k + 1][..k] == bindings[..k];
        if binding.target !in handlers {
          continue;
        }
        var returned, value := Invoke(binding, handlers[binding.target], payload);
        if !returned && binding.mode != ShadowMode {
          EmissionStops(w0, bindings, handlers, payload, k + 1);
          return false, results;
        }
        if binding.mode != ShadowMode {
          results := results + [value];
        }
      }
      assert bindings[..|bindings|] == bindings;
      ok := true;
    }

    method Invoke(binding: RouteBinding, handler: Handler, payload: string) returns (ok: bool, value: string)
      modifies this`calls, bus
      ensures (World(calls, bus.State()), ok) == Invoked(World(old(calls), old(bus.State())), binding, handler, payload)
      ensures value == handler(payload).value
    {
      calls := calls + [Call(binding.connectionId, binding.target, payload)];
      var reaction := handler(payload);
      value := reaction.value;
      var published := PublishEach(reaction.publishes);
      ok := published && !reaction.raises;
    }

    /** What a handler publishes reaches the bus in order, up to the first event whose publication raises. */
    method PublishEach(events: seq<Event>) returns (ok: bool)
      modifies bus
      ensures (bus.State(), ok) == AllPublished(old(bus.State()), events)
    {
      ghost var b0 := bus.State();
      for k := 0 to |events|
        invariant AllPublished(b0, events[..k]) == (bus.State(), true)
      {
        assert events[..k + 1][..k] == events[..k];
        var returned, heard := bus.Publish(events[k]);
        if !returned {
          PublishingStops(b0, events, k + 1);
          return false;
        }
      }
      assert events[..|events|] == events;
      ok := true;
    }
  }

  // ------------------------------------------------------------ once stopped

  lemma {:induction false} PublishingStops(b: BusState, events: seq<Event>, k: nat)
    requires k <= |events| && !AllPublished(b, events[..k]).1
    ensures AllPublished(b, events) == AllPublished(b, events[..k])
    decreases |events| - k
  {
    if k < |events| {
      assert events[..k + 1][..k] == events[..k];
      PublishingStops(b, events, k + 1);
    } else {
      assert events[..k] == events;
    }
  }

  lemma {:induction false} EmissionStops(
    w: World, bindings: seq<RouteBinding>, handlers: map<string, Handler>, payload: string, k: nat)
    requires k <= |bindings| && Emitted(w, bindings[..k], handlers, payload).raised
    ensures Emitted(w, bindings, handlers, payload) == Emitted(w, bindings[..k], handlers, payload)
    decreases |bindings| - k
  {
    if k < |bindings| {
      assert bindings[..k + 1][..k] == bindings[..k];
      EmissionStops(w, bindings, handlers, payload, k + 1);
    } else {
      assert bindings[..k] == bindings;
    }
  }

  lemma {:induction false} ReplayStops(
    w: World, table: RouteTable, handlers: map<string, Handler>, routes: seq<BufferedRoute>, k: nat)
    requires k <= |routes| && !RoutesReplayed(w, table, handlers, routes[..k]).1
    ensures RoutesReplayed(w, table, handlers, routes) == RoutesReplayed(w, table, handlers, routes[..k])
    decreases |routes| - k
  {
    if k < |routes| {
      assert routes[..k + 1][..k] == routes[..k];
      ReplayStops(w, table, handlers, routes, k + 1);
    } else {
      assert routes[..k] == routes;
    }
  }

  /** A scan holds a binding for exactly the connections leaving the source. */
  lemma {:induction false} ScanHolds(edges: seq<ConnectionEdge>, source: string)
    ensures forall b :: b in Scan(edges, source) <==> exists e :: e in edges && e.source == source && b == BindingOf(e)
  {
    if edges == [] {
    } else {
      var init, last := edges[..|edges| - 1], edges[|edges| - 1];
      assert edges == init + [last];
      ScanHolds(init, source);
    }
  }
}
