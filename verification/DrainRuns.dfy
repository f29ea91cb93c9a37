/** What a whole drain epoch does with the emissions and events it accepts. */
module DrainRuns {
  import opened Models
  import opened EventBus
  import opened Routing
  import opened ConnectionEngine
  import opened Drain

  // ------------------------------------------------------------- an epoch

  /** What may happen between opening and closing an epoch. */
  datatype EpochOp = RouteOp(route: BufferedRoute) | EventOp(event: Event) | CutoverOp(edges: seq<ConnectionEdge>)

  datatype System = System(engine: EngineState, bus: BusState)

  /** An emission or event a full buffer refuses raises and leaves no trace. */
  function EpochStep(s: System, op: EpochOp): System {
    match op
    case RouteOp(r) => if AcceptsRoute(s.engine) then s.(engine := Buffered(s.engine, r)) else s
    case EventOp(e) => if Accepts(s.bus) then s.(bus := Published(s.bus, e)) else s
    case CutoverOp(edges) => s.(engine := s.engine.(routeTable := Compiled(edges)))
  }

  function EpochRun(s: System, ops: seq<EpochOp>): System
    decreases |ops|
  {
    if ops == [] then s else EpochStep(EpochRun(s, ops[..|ops| - 1]), ops[|ops| - 1])
  }

  lemma {:induction false} EpochRunAppended(s: System, a: seq<EpochOp>, b: seq<EpochOp>)
    ensures EpochRun(s, a + b) == EpochRun(EpochRun(s, a), b)
    decreases |b|
  {
    if b == [] {
      assert a + b == a;
    } else {
      var c := a + b;
      assert c[..|c| - 1] == a + b[..|b| - 1];
      EpochRunAppended(s, a, b[..|b| - 1]);
    }
  }

  function Opened(s: System, epoch: string, policy: DrainPolicy): System {
    System(RouteDrainBegun(s.engine, epoch, policy.maxBufferedRoutes),
           DrainBegun(s.bus, epoch, policy.maxBufferedEvents))
  }

  /** What a `begin` that fails leaves behind. */
  function HalfOpened(s: System, begin: BeginOutcome, epoch: string, policy: DrainPolicy): System {
    System(if begin in {EpochActive, RouteDrainActive} then s.engine
           else RouteDrainBegun(s.engine, epoch, policy.maxBufferedRoutes),
           if begin in {EpochActive, RouteDrainActive, EventDrainActive} then s.bus
           else DrainBegun(s.bus, epoch, policy.maxBufferedEvents))
  }

  /** How closing an epoch ends: a replayed emission or, after those, a replayed event may raise. */
  datatype Closing = Returned | RoutesRaised | EventsUnheard

  /** What `complete` does to engine and bus. */
  function EpochClosed(s: System, replay: bool): (r: (System, Closing)) {
    var (e, b, ok) := RouteDrainEnded(s.engine, s.bus, replay);
    if !ok then (System(e, b), RoutesRaised)
    else
      var (c, heard) := DrainEnded(b, replay);
      (System(e, c), if heard then Returned else EventsUnheard)
  }

  /** What `abort` does to engine and bus. */
  function GivenUp(s: System): System {
    System(RouteDrainLeft(s.engine), DrainLeft(s.bus))
  }

  function RoutesIn(ops: seq<EpochOp>): seq<BufferedRoute> {
    if ops == [] then []
    else RoutesIn(ops[..|ops| - 1]) + (if ops[|ops| - 1].RouteOp? then [ops[|ops| - 1].route] else [])
  }

  function EventsIn(ops: seq<EpochOp>): seq<Event> {
    if ops == [] then []
    else EventsIn(ops[..|ops| - 1]) + (if ops[|ops| - 1].EventOp? then [ops[|ops| - 1].event] else [])
  }

  /** The graph the epoch cuts over to: the last one loaded, if any. */
  function TableAfter(table: RouteTable, ops: seq<EpochOp>): RouteTable {
    if ops == [] then table
    else if ops[|ops| - 1].CutoverOp? then Compiled(ops[|ops| - 1].edges)
    else TableAfter(table, ops[..|ops| - 1])
  }

  function TaggedAll(events: seq<Event>, epoch: string): seq<Event> {
    seq(|events|, i requires 0 <= i < |events| => Tagged(events[i], epoch))
  }

  /** The first `max` elements; none for a bound below one. */
  function Held<T>(s: seq<T>, max: int): seq<T> {
    if max < 0 then [] else if |s| <= max then s else s[..max]
  }

  lemma HeldOneMore<T>(s: seq<T>, x: T, max: int)
    ensures Held(s + [x], max) == if |Held(s, max)| < max then Held(s, max) + [x] else Held(s, max)
  {
  }

  /**
   * While the epoch is open nothing is dispatched, and the buffers hold the
   * first `max` emissions and events, in order of arrival and no more.
   */
  lemma {:induction false} EpochHolds(s: System, epoch: string, policy: DrainPolicy, ops: seq<EpochOp>)
    ensures var t := EpochRun(Opened(s, epoch, policy), ops);
            && t.engine == RouteDrainBegun(s.engine, epoch, policy.maxBufferedRoutes).(
                             routeTable := TableAfter(s.engine.routeTable, ops),
                             buffer := Held(RoutesIn(ops), policy.maxBufferedRoutes))
            && t.bus == DrainBegun(s.bus, epoch, policy.maxBufferedEvents).(
                          buffer := Held(TaggedAll(EventsIn(ops), epoch), policy.maxBufferedEvents))
    decreases |ops|
  {
    if ops == [] {
    } else {
      var init, last := ops[..|ops| - 1], ops[|ops| - 1];
      EpochHolds(s, epoch, policy, init);
      match last
      case RouteOp(r) => HeldOneMore(RoutesIn(init), r, policy.maxBufferedRoutes);
      case EventOp(e) =>
        assert TaggedAll(EventsIn(ops), epoch) == TaggedAll(EventsIn(init), epoch) + [Tagged(e, epoch)];
        HeldOneMore(TaggedAll(EventsIn(init), epoch), Tagged(e, epoch), policy.maxBufferedEvents);
      case CutoverOp(edges) =>
    }
  }

  // -------------------------------------------------- replay as handler calls

  /** One handler call of a replay, with what the handler does. */
  datatype Invocation = Invocation(call: Call, shadow: bool, reaction: Reaction)

  function InvocationsOf(bindings: seq<RouteBinding>, handlers: map<string, Handler>, payload: string): seq<Invocation>
    decreases |bindings|
  {
    if bindings == [] then []
    else
      var last := bindings[|bindings| - 1];
      InvocationsOf(bindings[..|bindings| - 1], handlers, payload)
      + (if last.target in handlers
         then [Invocation(Call(last.connectionId, last.target, payload), last.mode == ShadowMode,
                           handlers[last.target](payload))]
         else [])
  }

  function ReplayInvocations(table: RouteTable, handlers: map<string, Handler>, routes: seq<BufferedRoute>)
    : seq<Invocation>
    decreases |routes|
  {
    if routes == [] then []
    else
      var last := routes[|routes| - 1];
      ReplayInvocations(table, handlers, routes[..|routes| - 1])
      + InvocationsOf(Lookup(table, last.source), handlers, last.payload)
  }

  function InvokeOne(w: World, i: Invocation): (r: (World, bool)) {
    var (bus, ok) := AllPublished(w.bus, i.reaction.publishes);
    (World(w.calls + [i.call], bus), i.shadow || (ok && !i.reaction.raises))
  }

  function InvokeAll(w: World, invocations: seq<Invocation>): (r: (World, bool))
    decreases |invocations|
  {
    if invocations == [] then (w, true)
    else
      var (v, ok) := InvokeAll(w, invocations[..|invocations| - 1]);
      if !ok then (v, false) else InvokeOne(v, invocations[|invocations| - 1])
  }

  lemma {:induction false} InvokeAppended(w: World, a: seq<Invocation>, b: seq<Invocation>)
    ensures InvokeAll(w, a + b) == if InvokeAll(w, a).1 then InvokeAll(InvokeAll(w, a).0, b) else InvokeAll(w, a)
    decreases |b|
  {
    if b == [] {
      assert a + b == a;
    } else {
      var c := a + b;
      assert c[..|c| - 1] == a + b[..|b| - 1];
      InvokeAppended(w, a, b[..|b| - 1]);
    }
  }

  lemma {:induction false} EmissionInvokes(
    w: World, bindings: seq<RouteBinding>, handlers: map<string, Handler>, payload: string)
    ensures var e := Emitted(w, bindings, handlers, payload);
            InvokeAll(w, InvocationsOf(bindings, handlers, payload)) == (e.world, !e.raised)
    decreases |bindings|
  {
    if bindings == [] {
    } else {
      EmissionInvokes(w, bindings[..|bindings| - 1], handlers, payload);
      var all := InvocationsOf(bindings, handlers, payload);
      if bindings[|bindings| - 1].target in handlers {
        assert all[..|all| - 1] == InvocationsOf(bindings[..|bindings| - 1], handlers, payload);
      } else {
        assert all == InvocationsOf(bindings[..|bindings| - 1], handlers, payload);
      }
    }
  }

  /** Replaying held emissions is one flat series of handler calls. */
  lemma {:induction false} ReplayInvokes(
    w: World, table: RouteTable, handlers: map<string, Handler>, routes: seq<BufferedRoute>)
    ensures RoutesReplayed(w, table, handlers, routes) == InvokeAll(w, ReplayInvocations(table, handlers, routes))
    decreases |routes|
  {
    if routes == [] {
    } else {
      var init, last := routes[..|routes| - 1], routes[|routes| - 1];
      ReplayInvokes(w, table, handlers, init);
      var (v, ok) := RoutesReplayed(w, table, handlers, init);
      EmissionInvokes(v, Lookup(table, last.source), handlers, last.payload);
      InvokeAppended(w, ReplayInvocations(table, handlers, init),
                     InvocationsOf(Lookup(table, last.source), handlers, last.payload));
    }
  }

  function CallsIn(invocations: seq<Invocation>): seq<Call> {
    seq(|invocations|, i requires 0 <= i < |invocations| => invocations[i].call)
  }

  function EventsOf(invocations: seq<Invocation>): seq<Event>
    decreases |invocations|
  {
    if invocations == [] then []
    else EventsOf(invocations[..|invocations| - 1]) + invocations[|invocations| - 1].reaction.publishes
  }

  /** A series that raises stops at a non-shadow call: before it everything fits or is shadowed. */
  ghost predicate Survives(b: BusState, invocations: seq<Invocation>, k: nat)
    requires k < |invocations|
  {
    var i := invocations[k];
    i.shadow || (!i.reaction.raises &&
                 (i.reaction.publishes == [] || |b.buffer| + |EventsOf(invocations[..k + 1])| <= b.maxBuffered))
  }

  // ------------------------------------------- events published during replay

  lemma HeldAppend<T>(a: seq<T>, b: seq<T>, x: T, max: int)
    requires |a| <= max
    ensures Held(a + (b + [x]), max)
            == if |a| + |b| < max then Held(a + b, max) + [x] else Held(a + b, max)
  {
    assert a + (b + [x]) == (a + b) + [x];
    HeldOneMore(a + b, x, max);
  }

  /** While the event drain is active, what handlers publish is held behind what was held before. */
  lemma {:induction false} PublishedWhileDraining(b: BusState, events: seq<Event>)
    requires b.epoch.Some? && |b.buffer| <= b.maxBuffered
    ensures AllPublished(b, events).0
            == b.(buffer := Held(b.buffer + TaggedAll(events, b.epoch.value), b.maxBuffered))
    ensures AllPublished(b, events).1 <==> events == [] || |b.buffer| + |events| <= b.maxBuffered
    decreases |events|
  {
    if events == [] {
      assert b.buffer + TaggedAll(events, b.epoch.value) == b.buffer;
    } else {
      var init, last := events[..|events| - 1], events[|events| - 1];
      PublishedWhileDraining(b, init);
      assert TaggedAll(events, b.epoch.value) == TaggedAll(init, b.epoch.value) + [Tagged(last, b.epoch.value)];
      HeldAppend(b.buffer, TaggedAll(init, b.epoch.value), Tagged(last, b.epoch.value), b.maxBuffered);
    }
  }

  lemma HeldTwice<T>(a: seq<T>, b: seq<T>, c: seq<T>, max: int)
    requires |a| <= max
    ensures Held(Held(a + b, max) + c, max) == Held(a + (b + c), max)
  {
    assert a + (b + c) == (a + b) + c;
  }

  lemma TaggedAllAppended(a: seq<Event>, b: seq<Event>, epoch: string)
    ensures TaggedAll(a + b, epoch) == TaggedAll(a, epoch) + TaggedAll(b, epoch)
  {
  }

  /**
   * A series that runs to its end made every call once, in order, and the bus
   * holds what it held followed by what the handlers published, up to the bound.
   */
  lemma {:induction false} SeriesCompletes(w: World, invocations: seq<Invocation>)
    requires w.bus.epoch.Some? && |w.bus.buffer| <= w.bus.maxBuffered
    requires InvokeAll(w, invocations).1
    ensures InvokeAll(w, invocations).0.calls == w.calls + CallsIn(invocations)
    ensures InvokeAll(w, invocations).0.bus
            == w.bus.(buffer := Held(w.bus.buffer + TaggedAll(EventsOf(invocations), w.bus.epoch.value),
                                     w.bus.maxBuffered))
    decreases |invocations|
  {
    var epoch := w.bus.epoch.value;
    if invocations == [] {
      assert w.bus.buffer + TaggedAll(EventsOf(invocations), epoch) == w.bus.buffer;
    } else {
      var init, last := invocations[..|invocations| - 1], invocations[|invocations| - 1];
      SeriesCompletes(w, init);
      assert CallsIn(invocations) == CallsIn(init) + [last.call];
      PublishedWhileDraining(InvokeAll(w, init).0.bus, last.reaction.publishes);
      TaggedAllAppended(EventsOf(init), last.reaction.publishes, epoch);
      HeldTwice(w.bus.buffer, TaggedAll(EventsOf(init), epoch), TaggedAll(last.reaction.publishes, epoch),
                w.bus.maxBuffered);
    }
  }

  /**
   * Exactly when a replay runs to its end: no non-shadow handler raises, and
   * each one that publishes does so while everything published so far fits.
   */
  lemma {:induction false} SeriesCompletesExactly(w: World, invocations: seq<Invocation>)
    requires w.bus.epoch.Some? && |w.bus.buffer| <= w.bus.maxBuffered
    ensures InvokeAll(w, invocations).1 <==> forall k :: 0 <= k < |invocations| ==> Survives(w.bus, invocations, k)
    decreases |invocations|
  {
    if invocations == [] {
    } else {
      var n := |invocations| - 1;
      var init, last := invocations[..n], invocations[n];
      SeriesCompletesExactly(w, init);
      forall k | 0 <= k < n ensures Survives(w.bus, init, k) <==> Survives(w.bus, invocations, k) {
        assert init[..k + 1] == invocations[..k + 1];
      }
      assert invocations[..n + 1] == invocations;
      assert (forall k :: 0 <= k < |invocations| ==> Survives(w.bus, invocations, k))
        <==> (forall k :: 0 <= k < n ==> Survives(w.bus, init, k)) && Survives(w.bus, invocations, n);
      if InvokeAll(w, init).1 {
        SeriesCompletes(w, init);
        var held := InvokeAll(w, init).0.bus;
        PublishedWhileDraining(held, last.reaction.publishes);
        assert EventsOf(invocations) == EventsOf(init) + last.reaction.publishes;
        assert |held.buffer| == if |w.bus.buffer| + |EventsOf(init)| <= w.bus.maxBuffered
                                then |w.bus.buffer| + |EventsOf(init)| else w.bus.maxBuffered;
        assert InvokeOne(InvokeAll(w, init).0, last).1 <==> Survives(w.bus, invocations, n);
      }
    }
  }

  // ----------------------------------------------------------- exactly once

  /** The handler calls an epoch replays: those of the emissions it accepted, against the graph it cuts over to. */
  function CallsReplayed(s: System, policy: DrainPolicy, ops: seq<EpochOp>): seq<Invocation> {
    ReplayInvocations(TableAfter(s.engine.routeTable, ops), s.engine.handlers,
                      Held(RoutesIn(ops), policy.maxBufferedRoutes))
  }

  /** The events an epoch accepts: the first that arrive, then what the replayed handlers publish, up to the bound. */
  function EventsAccepted(s: System, policy: DrainPolicy, ops: seq<EpochOp>): seq<Event> {
    Held(Held(EventsIn(ops), policy.maxBufferedEvents) + EventsOf(CallsReplayed(s, policy, ops)),
         policy.maxBufferedEvents)
  }

  lemma TaggingKeepsHeld(events: seq<Event>, more: seq<Event>, epoch: string, max: int)
    ensures Held(TaggedAll(events, epoch), max) == TaggedAll(Held(events, max), epoch)
    ensures TaggedAll(events, epoch) + TaggedAll(more, epoch) == TaggedAll(events + more, epoch)
  {
  }

  lemma AcceptedAreHeld(events: seq<Event>, published: seq<Event>, epoch: string, max: int)
    ensures Held(Held(TaggedAll(events, epoch), max) + TaggedAll(published, epoch), max)
         == TaggedAll(Held(Held(events, max) + published, max), epoch)
  {
    TaggingKeepsHeld(events, [], epoch, max);
    TaggingKeepsHeld(Held(events, max), published, epoch, max);
    TaggingKeepsHeld(Held(events, max) + published, [], epoch, max);
  }

  /** These events are accepted ones again, from the first on. */
  predicate Replays(events: seq<Event>, accepted: seq<Event>, epoch: string) {
    && |events| <= |accepted|
    && forall i :: 0 <= i < |events| ==> ReplayOf(events[i], accepted[i], epoch)
  }

  /**
   * Replaying what was held: each event accepted reaches the history once and in order, up to the first
   * that a subscriber raises on.
   */
  lemma SentReplays(subscribers: Subscriptions, accepted: seq<Event>, epoch: string)
    ensures var sent := Sent(subscribers, TaggedAll(accepted, epoch));
            && Replays(sent, accepted, epoch)
            && (AllHeard(subscribers, sent) ==> |sent| == |accepted|)
            && (AllHeard(subscribers, sent) <==> AllReheard(subscribers, TaggedAll(accepted, epoch)))
            && (!AllHeard(subscribers, sent) ==> LastUnheard(subscribers, sent))
  {
    SentIsHeld(subscribers, TaggedAll(accepted, epoch));
    forall i | 0 <= i < |accepted| ensures ReplayOf(Replayed(TaggedAll(accepted, epoch)[i]), accepted[i], epoch) {
      ReplayedIsSame(accepted[i], epoch);
    }
  }

  /**
   * Once no replayed emission raises, each one accepted was dispatched exactly once, in order of
   * acceptance, against the graph loaded at cutover; then each event accepted, followed by those the
   * replayed handlers published, reaches the history exactly once in order, up to the first that a
   * subscriber raises on: the event itself, with nothing but the drain's own headers added. Nothing stays
   * held.
   */
  lemma AtMostOnce(s: System, epoch: string, policy: DrainPolicy, ops: seq<EpochOp>)
    requires 0 <= policy.maxBufferedEvents
    requires EpochClosed(EpochRun(Opened(s, epoch, policy), ops), true).1 != RoutesRaised
    ensures var (done, how) := EpochClosed(EpochRun(Opened(s, epoch, policy), ops), true);
            var accepted := EventsAccepted(s, policy, ops);
            && done.engine.calls == s.engine.calls + CallsIn(CallsReplayed(s, policy, ops))
            && done.engine.calls == s.engine.calls
               + AllCalls(TableAfter(s.engine.routeTable, ops), s.engine.handlers,
                          Held(RoutesIn(ops), policy.maxBufferedRoutes))
            && s.bus.history <= done.bus.history
            && var sent := done.bus.history[|s.bus.history|..];
            && Replays(sent, accepted, epoch)
            && done.bus.deliveries == s.bus.deliveries + AllDeliveries(s.bus.subscribers, sent)
            && done.engine.epoch.None? && done.engine.buffer == [] && done.bus.epoch.None? && done.bus.buffer == []
            && (how == Returned <==> AllHeard(s.bus.subscribers, sent))
            && (how == Returned <==> AllReheard(s.bus.subscribers, TaggedAll(accepted, epoch)))
            && (if how == Returned then |sent| == |accepted| else LastUnheard(s.bus.subscribers, sent))
  {
    var t := EpochRun(Opened(s, epoch, policy), ops);
    EpochHolds(s, epoch, policy, ops);
    var w := World(t.engine.calls, t.bus);
    ReplayInvokes(w, t.engine.routeTable, t.engine.handlers, t.engine.buffer);
    ReplayCalls(w, t.engine.routeTable, t.engine.handlers, t.engine.buffer);
    var replay := CallsReplayed(s, policy, ops);
    SeriesCompletes(w, replay);
    var v := InvokeAll(w, replay).0;
    AcceptedAreHeld(EventsIn(ops), EventsOf(replay), epoch, policy.maxBufferedEvents);
    ReplayLeaves(s.bus, v.bus, EventsAccepted(s, policy, ops), epoch);
  }

  /** What the replay of the events held makes of the bus. */
  lemma ReplayLeaves(before: BusState, b: BusState, accepted: seq<Event>, epoch: string)
    requires DrainLeft(b) == DrainLeft(before) && b.buffer == TaggedAll(accepted, epoch)
    ensures var (c, ok) := DrainEnded(b, true);
            && before.history <= c.history
            && var sent := c.history[|before.history|..];
            && Replays(sent, accepted, epoch)
            && c.deliveries == before.deliveries + AllDeliveries(before.subscribers, sent)
            && c.epoch.None? && c.buffer == []
            && (ok <==> AllHeard(before.subscribers, sent))
            && (ok <==> AllReheard(before.subscribers, TaggedAll(accepted, epoch)))
            && (if ok then |sent| == |accepted| else LastUnheard(before.subscribers, sent))
  {
    ReplayHistory(DrainLeft(b), b.buffer);
    ReplayDeliveries(DrainLeft(b), b.buffer);
    SentReplays(before.subscribers, accepted, epoch);
    var sent := Sent(before.subscribers, b.buffer);
    assert (before.history + sent)[|before.history|..] == sent;
  }

  /**
   * So an epoch that completes dispatches everything it accepted exactly once and in order, and each of
   * those events is heard once by each of its subscribers.
   */
  lemma ExactlyOnce(s: System, epoch: string, policy: DrainPolicy, ops: seq<EpochOp>)
    requires 0 <= policy.maxBufferedEvents
    requires EpochClosed(EpochRun(Opened(s, epoch, policy), ops), true).1 == Returned
    ensures var done := EpochClosed(EpochRun(Opened(s, epoch, policy), ops), true).0;
            var accepted := EventsAccepted(s, policy, ops);
            && done.engine.calls == s.engine.calls + CallsIn(CallsReplayed(s, policy, ops))
            && done.engine.calls == s.engine.calls
               + AllCalls(TableAfter(s.engine.routeTable, ops), s.engine.handlers,
                          Held(RoutesIn(ops), policy.maxBufferedRoutes))
            && s.bus.history <= done.bus.history && s.bus.deliveries <= done.bus.deliveries
            && var sent := done.bus.history[|s.bus.history|..];
            && |sent| == |accepted| && Replays(sent, accepted, epoch)
            && HeardInTurn(done.bus.deliveries[|s.bus.deliveries|..], s.bus.subscribers, sent)
            && done.engine.epoch.None? && done.engine.buffer == [] && done.bus.epoch.None? && done.bus.buffer == []
  {
    AtMostOnce(s, epoch, policy, ops);
    var done := EpochClosed(EpochRun(Opened(s, epoch, policy), ops), true).0;
    var sent := done.bus.history[|s.bus.history|..];
    AllHeardInTurn(s.bus.subscribers, sent);
    var heard := AllDeliveries(s.bus.subscribers, sent);
    assert (s.bus.deliveries + heard)[|s.bus.deliveries|..] == heard;
  }

  lemma {:induction false} ArrivalsAppended(a: seq<EpochOp>, b: seq<EpochOp>)
    ensures RoutesIn(a + b) == RoutesIn(a) + RoutesIn(b) && EventsIn(a + b) == EventsIn(a) + EventsIn(b)
    decreases |b|
  {
    if b == [] {
      assert a + b == a;
    } else {
      var c := a + b;
      assert c[..|c| - 1] == a + b[..|b| - 1];
      ArrivalsAppended(a, b[..|b| - 1]);
    }
  }

  /** What an epoch counts when it ends: the emissions it held and the events it has to replay. */
  lemma HeldInAll(s: System, epoch: string, policy: DrainPolicy, ops: seq<EpochOp>)
    requires 0 <= policy.maxBufferedEvents
    ensures var t := EpochRun(Opened(s, epoch, policy), ops);
            var (e, b, ok) := RouteDrainEnded(t.engine, t.bus, policy.replayBuffered);
            && |t.engine.buffer| == |Held(RoutesIn(ops), policy.maxBufferedRoutes)|
            && (ok ==> |b.buffer| == if policy.replayBuffered then |EventsAccepted(s, policy, ops)|
                                     else |Held(EventsIn(ops), policy.maxBufferedEvents)|)
  {
    var t := EpochRun(Opened(s, epoch, policy), ops);
    EpochHolds(s, epoch, policy, ops);
    TaggingKeepsHeld(EventsIn(ops), [], epoch, policy.maxBufferedEvents);
    if policy.replayBuffered && RouteDrainEnded(t.engine, t.bus, true).2 {
      var w := World(t.engine.calls, t.bus);
      ReplayInvokes(w, t.engine.routeTable, t.engine.handlers, t.engine.buffer);
      SeriesCompletes(w, CallsReplayed(s, policy, ops));
      AcceptedAreHeld(EventsIn(ops), EventsOf(CallsReplayed(s, policy, ops)), epoch, policy.maxBufferedEvents);
    }
  }

  /** An epoch that is given up dispatches nothing it held, and holds nothing any more. */
  lemma NeverAfterAbort(s: System, epoch: string, policy: DrainPolicy, ops: seq<EpochOp>)
    ensures var done := GivenUp(EpochRun(Opened(s, epoch, policy), ops));
            && done.engine.calls == s.engine.calls
            && done.bus.history == s.bus.history && done.bus.deliveries == s.bus.deliveries
            && done.engine == RouteDrainLeft(s.engine).(routeTable := TableAfter(s.engine.routeTable, ops))
            && done.bus == DrainLeft(s.bus)
  {
    EpochHolds(s, epoch, policy, ops);
  }

  /** So does one that is completed without replay; it always returns. */
  lemma NothingReplayed(s: System, epoch: string, policy: DrainPolicy, ops: seq<EpochOp>)
    ensures var (done, how) := EpochClosed(EpochRun(Opened(s, epoch, policy), ops), false);
            && how == Returned
            && done.engine.calls == s.engine.calls
            && done.bus.history == s.bus.history && done.bus.deliveries == s.bus.deliveries
            && done.engine.routeTable == TableAfter(s.engine.routeTable, ops)
            && done.engine.epoch.None? && done.engine.buffer == [] && done.bus.epoch.None? && done.bus.buffer == []
  {
    EpochHolds(s, epoch, policy, ops);
  }

  /** Never more than the configured bound is held. */
  lemma BoundKept(s: System, epoch: string, policy: DrainPolicy, ops: seq<EpochOp>)
    requires 0 <= policy.maxBufferedRoutes && 0 <= policy.maxBufferedEvents
    ensures var t := EpochRun(Opened(s, epoch, policy), ops);
            |t.engine.buffer| <= policy.maxBufferedRoutes && |t.bus.buffer| <= policy.maxBufferedEvents
  {
    EpochHolds(s, epoch, policy, ops);
  }

  /**
   * How completing an epoch ends, exactly. A replayed emission that raises closes the route drain only;
   * a subscriber that raises on a replayed event finds both drains over and leaves none behind.
   */
  lemma CompletionExact(s: System, epoch: string, policy: DrainPolicy, ops: seq<EpochOp>)
    requires 0 <= policy.maxBufferedEvents
    ensures var t := EpochRun(Opened(s, epoch, policy), ops);
            var (done, how) := EpochClosed(t, true);
            var replay := ReplayInvocations(t.engine.routeTable, t.engine.handlers, t.engine.buffer);
            && done.engine.epoch.None?
            && (done.bus.epoch.None? <==> how != RoutesRaised)
            && (how != RoutesRaised <==> forall k :: 0 <= k < |replay| ==> Survives(t.bus, replay, k))
            && (how == Returned <==>
                  && how != RoutesRaised
                  && AllReheard(s.bus.subscribers, TaggedAll(EventsAccepted(s, policy, ops), epoch)))
  {
    var t := EpochRun(Opened(s, epoch, policy), ops);
    EpochHolds(s, epoch, policy, ops);
    ClosingExact(t);
    if EpochClosed(t, true).1 != RoutesRaised {
      AtMostOnce(s, epoch, policy, ops);
    }
  }

  lemma ClosingExact(t: System)
    requires t.bus.epoch.Some? && |t.bus.buffer| <= t.bus.maxBuffered
    ensures var (done, how) := EpochClosed(t, true);
            var replay := ReplayInvocations(t.engine.routeTable, t.engine.handlers, t.engine.buffer);
            && done.engine.epoch.None?
            && (done.bus.epoch.None? <==> how != RoutesRaised)
            && (how != RoutesRaised <==> forall k :: 0 <= k < |replay| ==> Survives(t.bus, replay, k))
  {
    var w := World(t.engine.calls, t.bus);
    var replay := ReplayInvocations(t.engine.routeTable, t.engine.handlers, t.engine.buffer);
    ReplayInvokes(w, t.engine.routeTable, t.engine.handlers, t.engine.buffer);
    SeriesCompletesExactly(w, replay);
    ClosingLeaves(t, true);
  }

  /** Whatever was held, closing ends the route drain, and the event drain unless a replayed emission raises. */
  lemma ClosingLeaves(t: System, replay: bool)
    requires t.bus.epoch.Some?
    ensures var (done, how) := EpochClosed(t, replay);
            && done.engine.epoch.None? && (done.bus.epoch.None? <==> how != RoutesRaised)
            && done.bus.subscribers == t.bus.subscribers && t.bus.history <= done.bus.history
  {
    var w := World(t.engine.calls, t.bus);
    ReplayInvokes(w, t.engine.routeTable, t.engine.handlers, t.engine.buffer);
    SeriesKeepsDrain(w, ReplayInvocations(t.engine.routeTable, t.engine.handlers, t.engine.buffer));
    var (e, b, ok) := RouteDrainEnded(t.engine, t.bus, replay);
    ReplayHistory(DrainLeft(b), b.buffer);
  }

  /** Traffic never ends a drain. */
  lemma {:induction false} TrafficKeepsDrains(s: System, ops: seq<EpochOp>)
    ensures EpochRun(s, ops).engine.epoch == s.engine.epoch && EpochRun(s, ops).bus.epoch == s.bus.epoch
    ensures EpochRun(s, ops).engine.inflight == s.engine.inflight
    ensures EpochRun(s, ops).bus.subscribers == s.bus.subscribers
    ensures s.bus.history <= EpochRun(s, ops).bus.history
    decreases |ops|
  {
    if ops == [] {
    } else {
      TrafficKeepsDrains(s, ops[..|ops| - 1]);
    }
  }

  lemma {:induction false} PublishingKeepsEpoch(b: BusState, events: seq<Event>)
    ensures AllPublished(b, events).0.epoch == b.epoch && AllPublished(b, events).0.subscribers == b.subscribers
    ensures b.history <= AllPublished(b, events).0.history
    decreases |events|
  {
    if events == [] {
    } else {
      PublishingKeepsEpoch(b, events[..|events| - 1]);
    }
  }

  lemma {:induction false} SeriesKeepsDrain(w: World, invocations: seq<Invocation>)
    ensures InvokeAll(w, invocations).0.bus.epoch == w.bus.epoch
    ensures InvokeAll(w, invocations).0.bus.subscribers == w.bus.subscribers
    ensures w.bus.history <= InvokeAll(w, invocations).0.bus.history
    decreases |invocations|
  {
    if invocations == [] {
    } else {
      SeriesKeepsDrain(w, invocations[..|invocations| - 1]);
      PublishingKeepsEpoch(InvokeAll(w, invocations[..|invocations| - 1]).0.bus,
                           invocations[|invocations| - 1].reaction.publishes);
    }
  }
}
