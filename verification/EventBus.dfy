/** The event bus: publishing, history, and buffering while a drain epoch is active. */
module EventBus {
  import opened Models

  type Headers = map<string, string>

  datatype Event = Event(name: string, payload: string, traceId: Option<string>, headers: Headers)

  /** What a subscriber does with an event it is called with. */
  datatype Hearing = Answers(value: string) | Fails

  /** A subscriber is told apart by a name of its own; it may raise, but publishes nothing itself. */
  datatype Subscriber = Subscriber(id: string, hear: Event -> Hearing)

  type Subscriptions = map<string, seq<Subscriber>>

  /** One call of a subscriber, as the subscriber sees it. */
  datatype Delivery = Delivery(subscriber: string, event: Event)

  datatype BusState = BusState(
    subscribers: Subscriptions,
    history: seq<Event>,
    deliveries: seq<Delivery>,
    epoch: Option<string>,
    buffer: seq<Event>,
    maxBuffered: int)

  // --------------------------------------------------------- what steps do

  function SetDefault(h: Headers, key: string, value: string): Headers {
    if key in h then h else h[key := value]
  }

  /** A buffered event carries the epoch it waited for. */
  function Tagged(e: Event, epoch: string): Event {
    e.(headers := SetDefault(e.headers, "drain_epoch", epoch))
  }

  /** A replayed event says which epoch held it back. */
  function Replayed(e: Event): Event {
    e.(headers := SetDefault(e.headers, "replayed_from_drain_epoch",
                             if "drain_epoch" in e.headers then e.headers["drain_epoch"] else ""))
  }

  /** The event itself: what was published, with all its headers. */
  predicate SameEvent(r: Event, e: Event) {
    && r.name == e.name && r.payload == e.payload && r.traceId == e.traceId
    && forall k :: k in e.headers ==> k in r.headers && r.headers[k] == e.headers[k]
  }

  /** The buffered event again; a header that says which epoch it waited for is added, unless it has one. */
  predicate Resent(r: Event, e: Event) {
    && SameEvent(r, e) && r.headers.Keys == e.headers.Keys + {"replayed_from_drain_epoch"}
    && ("replayed_from_drain_epoch" !in e.headers ==>
          r.headers["replayed_from_drain_epoch"]
          == if "drain_epoch" in e.headers then e.headers["drain_epoch"] else "")
  }

  /** The published event again, after an epoch: the two drain headers are added, and none is overwritten. */
  predicate ReplayOf(r: Event, e: Event, epoch: string) {
    && SameEvent(r, e) && r.headers.Keys == e.headers.Keys + {"drain_epoch", "replayed_from_drain_epoch"}
    && ("drain_epoch" !in e.headers ==> r.headers["drain_epoch"] == epoch)
    && ("replayed_from_drain_epoch" !in e.headers ==>
          r.headers["replayed_from_drain_epoch"] == r.headers["drain_epoch"])
  }

  /** What is replayed is what was held, and what was held is what was published. */
  lemma ReplayedIsSame(e: Event, epoch: string)
    ensures Resent(Replayed(e), e) && ReplayOf(Replayed(Tagged(e, epoch)), e, epoch)
  {
    assert |"drain_epoch"| == 11 && |"replayed_from_drain_epoch"| == 25;
  }

  function Subscribers(subscribers: Subscriptions, name: string): seq<Subscriber> {
    if name in subscribers then subscribers[name] else []
  }

  predicate AllAnswer(subscribers: seq<Subscriber>, e: Event) {
    forall i :: 0 <= i < |subscribers| ==> subscribers[i].hear(e).Answers?
  }

  /** No subscriber of the event raises. */
  predicate Heard(subscribers: Subscriptions, e: Event) {
    AllAnswer(Subscribers(subscribers, e.name), e)
  }

  predicate AllHeard(subscribers: Subscriptions, events: seq<Event>) {
    forall i :: 0 <= i < |events| ==> Heard(subscribers, events[i])
  }

  /** The subscribers that are called: all of them, or those up to the first that raises. */
  function Called(subscribers: seq<Subscriber>, e: Event): (r: seq<Subscriber>)
    ensures r <= subscribers
    ensures AllAnswer(subscribers, e) ==> r == subscribers
    ensures forall i :: 0 <= i < |r| - 1 ==> r[i].hear(e).Answers?
    ensures |r| < |subscribers| ==> r != [] && r[|r| - 1].hear(e).Fails?
  {
    if subscribers == [] then []
    else if subscribers[0].hear(e).Fails? then [subscribers[0]]
    else
      assert subscribers == [subscribers[0]] + subscribers[1..];
      [subscribers[0]] + Called(subscribers[1..], e)
  }

  function Deliveries(subscribers: seq<Subscriber>, e: Event): seq<Delivery> {
    seq(|subscribers|, i requires 0 <= i < |subscribers| => Delivery(subscribers[i].id, e))
  }

  /** What the subscribers answer, in subscription order. */
  predicate AnsweredBy(results: seq<string>, subscribers: seq<Subscriber>, e: Event) {
    |results| == |subscribers| && forall i :: 0 <= i < |results| ==> subscribers[i].hear(e) == Answers(results[i])
  }

  /** The event enters the history before anybody hears of it; the first subscriber that raises is the last called. */
  function Dispatched(b: BusState, e: Event): BusState {
    b.(history := b.history + [e],
       deliveries := b.deliveries + Deliveries(Called(Subscribers(b.subscribers, e.name), e), e))
  }

  /** A full buffer of an active drain refuses the event. */
  predicate Accepts(b: BusState) {
    b.epoch.Some? ==> |b.buffer| < b.maxBuffered
  }

  function Published(b: BusState, e: Event): BusState
    requires Accepts(b)
  {
    if b.epoch.None? then Dispatched(b, e) else b.(buffer := b.buffer + [Tagged(e, b.epoch.value)])
  }

  /** Publishing raises exactly when the event is refused, or dispatched to a subscriber that raises. */
  predicate Returns(b: BusState, e: Event) {
    Accepts(b) && (b.epoch.None? ==> Heard(b.subscribers, e))
  }

  /** What publishing leaves, and whether it returned. */
  function AfterPublish(b: BusState, e: Event): (r: (BusState, bool)) {
    (if Accepts(b) then Published(b, e) else b, Returns(b, e))
  }

  function DrainBegun(b: BusState, epoch: string, maxBuffered: int): BusState {
    b.(epoch := Some(epoch), buffer := [], maxBuffered := maxBuffered)
  }

  function DrainLeft(b: BusState): BusState {
    b.(epoch := None, buffer := [], maxBuffered := 0)
  }

  /** Replaying held events; it stops at the first that a subscriber raises on. */
  function AllDispatched(b: BusState, events: seq<Event>): (r: (BusState, bool))
    decreases |events|
  {
    if events == [] then (b, true)
    else
      var (c, ok) := AllDispatched(b, events[..|events| - 1]);
      var last := Replayed(events[|events| - 1]);
      if !ok then (c, false) else (Dispatched(c, last), Heard(c.subscribers, last))
  }

  /** What `end_drain` leaves, and whether it returned: the drain is over before anything is replayed. */
  function DrainEnded(b: BusState, replay: bool): (r: (BusState, bool)) {
    if replay then AllDispatched(DrainLeft(b), b.buffer) else (DrainLeft(b), true)
  }

  function ReplayedAll(events: seq<Event>): seq<Event> {
    seq(|events|, i requires 0 <= i < |events| => Replayed(events[i]))
  }

  /** No subscriber raises on any of these when they are replayed. */
  predicate AllReheard(subscribers: Subscriptions, events: seq<Event>) {
    forall i :: 0 <= i < |events| ==> Heard(subscribers, Replayed(events[i]))
  }

  /** The events a replay dispatches: each one while nobody has raised on those before it. */
  function Sent(subscribers: Subscriptions, events: seq<Event>): seq<Event>
    decreases |events|
  {
    if events == [] then []
    else
      var init := events[..|events| - 1];
      Sent(subscribers, init) + (if AllReheard(subscribers, init) then [Replayed(events[|events| - 1])] else [])
  }

  lemma ReheardOneMore(subscribers: Subscriptions, events: seq<Event>)
    requires events != []
    ensures AllReheard(subscribers, events)
       <==> AllReheard(subscribers, events[..|events| - 1]) && Heard(subscribers, Replayed(events[|events| - 1]))
  {
  }

  /** All of them when nobody raises; otherwise those up to the first that somebody raises on. */
  lemma {:induction false} SentExactly(subscribers: Subscriptions, events: seq<Event>)
    ensures AllReheard(subscribers, events) ==> Sent(subscribers, events) == ReplayedAll(events)
    ensures !AllReheard(subscribers, events) ==> exists k :: StopsAt(subscribers, events, k)
    decreases |events|
  {
    if events == [] {
    } else {
      var n := |events| - 1;
      var init := events[..n];
      ReheardOneMore(subscribers, events);
      SentExactly(subscribers, init);
      assert ReplayedAll(events) == ReplayedAll(init) + [Replayed(events[n])];
      if !AllReheard(subscribers, init) {
        var k :| StopsAt(subscribers, init, k);
        StopsThereStill(subscribers, events, k);
      } else if !AllReheard(subscribers, events) {
        StopsAtLast(subscribers, events);
      }
    }
  }

  lemma StopsAtLast(subscribers: Subscriptions, events: seq<Event>)
    requires events != [] && AllReheard(subscribers, events[..|events| - 1])
    requires Sent(subscribers, events[..|events| - 1]) == ReplayedAll(events[..|events| - 1])
    requires !Heard(subscribers, Replayed(events[|events| - 1]))
    ensures StopsAt(subscribers, events, |events| - 1)
  {
    var n := |events| - 1;
    assert ReplayedAll(events) == ReplayedAll(events[..n]) + [Replayed(events[n])];
    assert events[..n + 1] == events;
  }

  lemma StopsThereStill(subscribers: Subscriptions, events: seq<Event>, k: int)
    requires events != [] && StopsAt(subscribers, events[..|events| - 1], k)
    ensures StopsAt(subscribers, events, k)
  {
    var init := events[..|events| - 1];
    assert init[..k] == events[..k] && init[..k + 1] == events[..k + 1] && init[k] == events[k];
    assert !AllReheard(subscribers, init);
    assert Sent(subscribers, events) == Sent(subscribers, init);
  }

  /** The replay gets as far as event k, on which a subscriber raises. */
  predicate StopsAt(subscribers: Subscriptions, events: seq<Event>, k: int) {
    && 0 <= k < |events| && AllReheard(subscribers, events[..k]) && !Heard(subscribers, Replayed(events[k]))
    && Sent(subscribers, events) == ReplayedAll(events[..k + 1])
  }

  /**
   * Replay appends each event it dispatches to the history once, in the order of acceptance; it returns
   * exactly when no subscriber raises, and changes nothing else but the deliveries.
   */
  lemma {:induction false} ReplayHistory(b: BusState, events: seq<Event>)
    ensures var (c, ok) := AllDispatched(b, events);
            && c.history == b.history + Sent(b.subscribers, events)
            && c.(history := [], deliveries := []) == b.(history := [], deliveries := [])
            && (ok <==> AllReheard(b.subscribers, events))
    decreases |events|
  {
    if events == [] {
    } else {
      ReplayHistory(b, events[..|events| - 1]);
      ReheardOneMore(b.subscribers, events);
    }
  }

  /** Those are the held events from the first on, each as it was held. */
  lemma SentIsHeld(subscribers: Subscriptions, events: seq<Event>)
    ensures var sent := Sent(subscribers, events);
            && |sent| <= |events|
            && (forall i :: 0 <= i < |sent| ==> sent[i] == Replayed(events[i]))
            && (AllReheard(subscribers, events) ==> |sent| == |events| && AllHeard(subscribers, sent))
            && (!AllReheard(subscribers, events) ==> LastUnheard(subscribers, sent))
  {
    SentExactly(subscribers, events);
    if AllReheard(subscribers, events) {
      ReheardIsHeard(subscribers, events);
    } else {
      var k :| StopsAt(subscribers, events, k);
      SentUpTo(subscribers, events, k);
    }
  }

  lemma SentUpTo(subscribers: Subscriptions, events: seq<Event>, k: nat)
    requires StopsAt(subscribers, events, k)
    ensures var sent := Sent(subscribers, events);
            && |sent| == k + 1 && (forall i :: 0 <= i < |sent| ==> sent[i] == Replayed(events[i]))
            && LastUnheard(subscribers, sent)
  {
    var init, upTo := events[..k], events[..k + 1];
    ReheardIsHeard(subscribers, init);
    assert forall i :: 0 <= i <= k ==> upTo[i] == events[i];
    assert ReplayedAll(upTo)[..k] == ReplayedAll(init);
  }

  lemma ReheardIsHeard(subscribers: Subscriptions, events: seq<Event>)
    ensures AllReheard(subscribers, events) <==> AllHeard(subscribers, ReplayedAll(events))
  {
    assert forall i :: 0 <= i < |events| ==> ReplayedAll(events)[i] == Replayed(events[i]);
  }

  /** A subscriber raises on the last of these events, and none on those before it. */
  predicate LastUnheard(subscribers: Subscriptions, events: seq<Event>) {
    && events != [] && !Heard(subscribers, events[|events| - 1])
    && AllHeard(subscribers, events[..|events| - 1])
  }

  /** The history has grown by held events, in order and from the first on; by all of them if the replay returned. */
  predicate ReplayedOnto(before: seq<Event>, after: seq<Event>, held: seq<Event>, ok: bool) {
    && before <= after && |after| <= |before| + |held|
    && (ok ==> |after| == |before| + |held|)
    && forall i :: 0 <= i < |after| - |before| ==> Resent(after[|before| + i], held[i])
  }

  lemma ReplayedFrom(b: BusState, events: seq<Event>)
    ensures ReplayedOnto(b.history, AllDispatched(b, events).0.history, events, AllDispatched(b, events).1)
  {
    ReplayHistory(b, events);
    SentIsHeld(b.subscribers, events);
    forall i | 0 <= i < |events| ensures Resent(Replayed(events[i]), events[i]) {
      ReplayedIsSame(events[i], "");
    }
  }

  /** The calls made for events dispatched one after the other. */
  function AllDeliveries(subscribers: Subscriptions, events: seq<Event>): seq<Delivery>
    decreases |events|
  {
    if events == [] then []
    else
      var last := events[|events| - 1];
      AllDeliveries(subscribers, events[..|events| - 1])
      + Deliveries(Called(Subscribers(subscribers, last.name), last), last)
  }

  lemma DeliveriesOneMore(subscribers: Subscriptions, events: seq<Event>, e: Event)
    ensures AllDeliveries(subscribers, events + [e])
         == AllDeliveries(subscribers, events) + Deliveries(Called(Subscribers(subscribers, e.name), e), e)
  {
    assert (events + [e])[..|events|] == events;
  }

  /**
   * Each subscriber of an event that is replayed is called once for it, in subscription order; after the
   * first that raises nobody is called any more.
   */
  lemma {:induction false} ReplayDeliveries(b: BusState, events: seq<Event>)
    ensures AllDispatched(b, events).0.deliveries
         == b.deliveries + AllDeliveries(b.subscribers, Sent(b.subscribers, events))
    decreases |events|
  {
    if events == [] {
    } else {
      var init, last := events[..|events| - 1], Replayed(events[|events| - 1]);
      var c := AllDispatched(b, init).0;
      ReplayDeliveries(b, init);
      ReplayHistory(b, init);
      assert c.subscribers == b.subscribers;
      DeliveriesOneMore(b.subscribers, Sent(b.subscribers, init), last);
      if AllReheard(b.subscribers, init) {
        DeliveriesAppended(b.deliveries, AllDeliveries(b.subscribers, Sent(b.subscribers, init)),
                           Deliveries(Called(Subscribers(b.subscribers, last.name), last), last));
      } else {
        assert Sent(b.subscribers, events) == Sent(b.subscribers, init);
      }
    }
  }

  /** How many calls the first n of these events are worth when nobody raises. */
  function CallCount(subscribers: Subscriptions, events: seq<Event>, n: nat): nat
    requires n <= |events|
  {
    if n == 0 then 0 else CallCount(subscribers, events, n - 1) + |Subscribers(subscribers, events[n - 1].name)|
  }

  lemma FirstHeard(subscribers: Subscriptions, events: seq<Event>, n: nat)
    requires AllHeard(subscribers, events) && 0 < n <= |events|
    ensures AllDeliveries(subscribers, events[..n])
         == AllDeliveries(subscribers, events[..n - 1])
            + Deliveries(Subscribers(subscribers, events[n - 1].name), events[n - 1])
  {
    assert events[..n] == events[..n - 1] + [events[n - 1]];
    DeliveriesOneMore(subscribers, events[..n - 1], events[n - 1]);
    assert Heard(subscribers, events[n - 1]);
  }

  lemma {:induction false} CallsCounted(subscribers: Subscriptions, events: seq<Event>, n: nat)
    requires AllHeard(subscribers, events) && n <= |events|
    ensures |AllDeliveries(subscribers, events[..n])| == CallCount(subscribers, events, n)
  {
    if n == 0 {
    } else {
      FirstHeard(subscribers, events, n);
      CallsCounted(subscribers, events, n - 1);
    }
  }

  /** Subscriber j hears event i, at its turn. */
  predicate HeardAt(
    deliveries: seq<Delivery>, subscribers: Subscriptions, events: seq<Event>, i: nat, j: nat)
    requires i < |events| && j < |Subscribers(subscribers, events[i].name)|
  {
    var at := CallCount(subscribers, events, i) + j;
    && at < |deliveries| && deliveries[at].subscriber == Subscribers(subscribers, events[i].name)[j].id
    && deliveries[at].event == events[i]
  }

  lemma {:induction false} DeliveriesGrow(subscribers: Subscriptions, events: seq<Event>, m: nat, n: nat)
    requires AllHeard(subscribers, events) && m <= n <= |events|
    ensures AllDeliveries(subscribers, events[..m]) <= AllDeliveries(subscribers, events[..n])
    decreases n
  {
    if m == n {
    } else {
      FirstHeard(subscribers, events, n);
      DeliveriesGrow(subscribers, events, m, n - 1);
    }
  }

  lemma HeardOnce(subscribers: Subscriptions, events: seq<Event>, i: nat, j: nat)
    requires AllHeard(subscribers, events) && i < |events| && j < |Subscribers(subscribers, events[i].name)|
    ensures HeardAt(AllDeliveries(subscribers, events[..i + 1]), subscribers, events, i, j)
  {
    FirstHeard(subscribers, events, i + 1);
    CallsCounted(subscribers, events, i);
    HeardLast(AllDeliveries(subscribers, events[..i]), subscribers, events, i, j);
  }

  lemma HeardLast(before: seq<Delivery>, subscribers: Subscriptions, events: seq<Event>, i: nat, j: nat)
    requires i < |events| && j < |Subscribers(subscribers, events[i].name)|
    requires |before| == CallCount(subscribers, events, i)
    ensures HeardAt(before + Deliveries(Subscribers(subscribers, events[i].name), events[i]),
                    subscribers, events, i, j)
  {
  }

  lemma HeardStill(
    before: seq<Delivery>, after: seq<Delivery>, subscribers: Subscriptions, events: seq<Event>, i: nat, j: nat)
    requires i < |events| && j < |Subscribers(subscribers, events[i].name)|
    requires HeardAt(before, subscribers, events, i, j) && before <= after
    ensures HeardAt(after, subscribers, events, i, j)
  {
  }

  lemma HeardAmongAll(subscribers: Subscriptions, events: seq<Event>, i: nat, j: nat)
    requires AllHeard(subscribers, events) && i < |events| && j < |Subscribers(subscribers, events[i].name)|
    ensures HeardAt(AllDeliveries(subscribers, events), subscribers, events, i, j)
  {
    HeardOnce(subscribers, events, i, j);
    DeliveriesGrow(subscribers, events, i + 1, |events|);
    assert events[..|events|] == events;
    HeardStill(AllDeliveries(subscribers, events[..i + 1]), AllDeliveries(subscribers, events),
               subscribers, events, i, j);
  }

  /** When nobody raises, each event is heard by each of its subscribers, once and in turn. */
  predicate HeardInTurn(deliveries: seq<Delivery>, subscribers: Subscriptions, events: seq<Event>) {
    && |deliveries| == CallCount(subscribers, events, |events|)
    && forall i: nat, j: nat :: i < |events| && j < |Subscribers(subscribers, events[i].name)| ==>
         HeardAt(deliveries, subscribers, events, i, j)
  }

  lemma AllHeardInTurn(subscribers: Subscriptions, events: seq<Event>)
    requires AllHeard(subscribers, events)
    ensures HeardInTurn(AllDeliveries(subscribers, events), subscribers, events)
  {
    assert events[..|events|] == events;
    CallsCounted(subscribers, events, |events|);
    forall i: nat, j: nat | i < |events| && j < |Subscribers(subscribers, events[i].name)|
      ensures HeardAt(AllDeliveries(subscribers, events), subscribers, events, i, j)
    {
      HeardAmongAll(subscribers, events, i, j);
    }
  }

  lemma DeliveriesAppended(a: seq<Delivery>, b: seq<Delivery>, c: seq<Delivery>)
    ensures (a + b) + c == a + (b + c)
  {
  }

  // --------------------------------------------------------------- the bus

  class EventBus {
    var subscribers: Subscriptions
    var history: seq<Event>
    var deliveries: seq<Delivery>
    var drainEpoch: Option<string>
    var drainBuffer: seq<Event>
    var drainMaxBuffered: int

    constructor ()
      ensures State() == BusState(map[], [], [], None, [], 0)
    {
      subscribers, history, deliveries := map[], [], [];
      drainEpoch, drainBuffer, drainMaxBuffered := None, [], 0;
    }

    function State(): BusState
      reads this
    {
      BusState(subscribers, history, deliveries, drainEpoch, drainBuffer, drainMaxBuffered)
    }

    method Subscribe(name: string, subscriber: Subscriber)
      modifies this
      ensures State() == old(State()).(
                           subscribers := old(subscribers)[name := Subscribers(old(subscribers), name) + [subscriber]])
    {
      subscribers := subscribers[name := (if name in subscribers then subscribers[name] else []) + [subscriber]];
    }

    /** False when a drain is already active: the call raises and changes nothing. */
    method BeginDrain(epoch: string, maxBuffered: int) returns (ok: bool)
      modifies this
      ensures ok <==> old(drainEpoch).None?
      ensures State() == if ok then DrainBegun(old(State()), epoch, maxBuffered) else old(State())
    {
      if drainEpoch.Some? {
        return false;
      }
      drainEpoch, drainMaxBuffered, drainBuffer := Some(epoch), maxBuffered, [];
      ok := true;
    }

    /** `ok` is false when a subscriber raises during the replay: the events after that one are lost. */
    method EndDrain(replay: bool) returns (ok: bool, count: nat)
      modifies this
      ensures (State(), ok) == DrainEnded(old(State()), replay)
      ensures count == |old(drainBuffer)|
      ensures ReplayedOnto(old(history), history, if replay then old(drainBuffer) else [], ok)
    {
      var buffered := drainBuffer;
      count := |buffered|;
      drainEpoch, drainBuffer, drainMaxBuffered := None, [], 0;
      ghost var left := State();
      ReplayedFrom(left, buffered);
      ok := true;
      if replay {
        for i := 0 to |buffered|
          invariant (State(), true) == AllDispatched(left, buffered[..i])
        {
          ReplayHistory(left, buffered[..i]);
          AllDispatchedOneMore(left, buffered, i);
          var results;
          ok, results := Publish(Replayed(buffered[i]));
          if !ok {
            ReplayEnds(left, buffered, i + 1);
            return;
          }
        }
        assert buffered[..|buffered|] == buffered;
        ok := true;
      }
    }

    /** False when the buffer is full, and nothing changes, or when a subscriber raises. */
    method Publish(event: Event) returns (ok: bool, results: seq<string>)
      modifies this
      ensures (State(), ok) == AfterPublish(old(State()), event)
      ensures ok ==> if old(drainEpoch).Some? then results == []
                     else AnsweredBy(results, Subscribers(subscribers, event.name), event)
    {
      results := [];
      if drainEpoch.Some? {
        if |drainBuffer| >= drainMaxBuffered {
          return false, [];
        }
        drainBuffer := drainBuffer + [Tagged(event, drainEpoch.value)];
        return true, [];
      }
      ok, results := DispatchEvent(event);
    }

    method DispatchEvent(event: Event) returns (ok: bool, results: seq<string>)
      modifies this
      ensures State() == Dispatched(old(State()), event)
      ensures ok <==> Heard(subscribers, event)
      ensures ok ==> AnsweredBy(results, Subscribers(subscribers, event.name), event)
    {
      history := history + [event];
      ok, results := CallEach(if event.name in subscribers then subscribers[event.name] else [], event);
    }

    method CallEach(handlers: seq<Subscriber>, event: Event) returns (ok: bool, results: seq<string>)
      modifies this`deliveries
      ensures deliveries == old(deliveries) + Deliveries(Called(handlers, event), event)
      ensures ok <==> AllAnswer(handlers, event)
      ensures ok ==> AnsweredBy(results, handlers, event)
    {
      results := [];
      for i := 0 to |handlers|
        invariant deliveries == old(deliveries) + Deliveries(handlers[..i], event)
        invariant forall j :: 0 <= j < i ==> handlers[j].hear(event).Answers?
        invariant AnsweredBy(results, handlers[..i], event)
      {
        DeliveredOneMore(old(deliveries), handlers, event, i);
        deliveries := deliveries + [Delivery(handlers[i].id, event)];
        var hearing := handlers[i].hear(event);
        if hearing.Fails? {
          CalledUpTo(handlers, event, i);
          return false, results;
        }
        results := results + [hearing.value];
      }
      AllCalled(handlers);
      ok := true;
    }
  }

  lemma AllCalled(handlers: seq<Subscriber>)
    ensures handlers[..|handlers|] == handlers
  {
  }

  lemma DeliveredOneMore(before: seq<Delivery>, subscribers: seq<Subscriber>, e: Event, i: nat)
    requires i < |subscribers|
    ensures before + Deliveries(subscribers[..i + 1], e)
         == before + Deliveries(subscribers[..i], e) + [Delivery(subscribers[i].id, e)]
  {
    assert Deliveries(subscribers[..i + 1], e) == Deliveries(subscribers[..i], e) + [Delivery(subscribers[i].id, e)];
  }

  lemma AllDispatchedOneMore(b: BusState, events: seq<Event>, k: nat)
    requires k < |events| && AllDispatched(b, events[..k]).1
    ensures var c, e := AllDispatched(b, events[..k]).0, Replayed(events[k]);
            AllDispatched(b, events[..k + 1]) == (Dispatched(c, e), Heard(c.subscribers, e))
  {
    assert events[..k + 1][..k] == events[..k];
  }

  lemma {:induction false} ReplayEnds(b: BusState, events: seq<Event>, k: nat)
    requires k <= |events| && !AllDispatched(b, events[..k]).1
    ensures AllDispatched(b, events) == AllDispatched(b, events[..k])
    decreases |events| - k
  {
    if k < |events| {
      assert events[..k + 1][..k] == events[..k];
      ReplayEnds(b, events, k + 1);
    } else {
      assert events[..k] == events;
    }
  }

  /** Called stops right after the first subscriber that raises. */
  lemma {:induction false} CalledUpTo(subscribers: seq<Subscriber>, e: Event, i: nat)
    requires i < |subscribers| && subscribers[i].hear(e).Fails?
    requires forall j :: 0 <= j < i ==> subscribers[j].hear(e).Answers?
    ensures Called(subscribers, e) == subscribers[..i + 1]
    decreases i
  {
    if i == 0 {
    } else {
      assert subscribers[0].hear(e).Answers?;
      CalledUpTo(subscribers[1..], e, i - 1);
      assert subscribers[..i + 1] == [subscribers[0]] + subscribers[1..][..i];
    }
  }
}
