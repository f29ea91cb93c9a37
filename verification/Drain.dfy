/** The drain coordinator: quiescing routes, events and components around a cutover. */
module Drain {
  import opened Ids
  import opened Digraph
  import opened Models
  import opened EventBus
  import opened Routing
  import opened ConnectionEngine
  import opened Lifecycle

  datatype DrainState = Open | Draining | Quiesced | CuttingOver | Replaying | Completed | Aborted

  datatype DrainPolicy = DrainPolicy(maxBufferedRoutes: int, maxBufferedEvents: int, replayBuffered: bool)

  /** A lifecycle hook of a component, in the order in which hooks run. */
  datatype Hook = SuspendHook(component: Id) | ResumeHook(component: Id)

  datatype DrainReport = DrainReport(epochId: string, success: bool, bufferedRoutes: nat, bufferedEvents: nat)

  datatype BeginOutcome = Begun | EpochActive | RouteDrainActive | EventDrainActive | TimedOut

  /** A raising replay is one of emissions, or, after those, of events. */
  datatype EndOutcome = Ended | NotCurrent | ReplayRaised | EventsRaised

  class DrainEpoch {
    const epochId: string
    const affectedComponents: seq<Id>
    var state: DrainState
    var suspendedComponents: seq<Id>
    var previousPhases: Phases

    constructor (epochId: string, affectedComponents: seq<Id>)
      ensures this.epochId == epochId && this.affectedComponents == affectedComponents
      ensures state == Open && suspendedComponents == [] && previousPhases == map[]
    {
      this.epochId, this.affectedComponents := epochId, affectedComponents;
      state, suspendedComponents, previousPhases := Open, [], map[];
    }
  }

  // --------------------------------------------------------- what steps do

  /** `list(dict.fromkeys(s))`: first occurrences, in order. */
  function Deduped(s: seq<Id>): (r: seq<Id>)
    ensures forall x :: x in r <==> x in s
    ensures forall i, j :: 0 <= i < j < |r| ==> r[i] != r[j]
  {
    if s == [] then []
    else
      var init, last := Deduped(s[..|s| - 1]), s[|s| - 1];
      assert s == s[..|s| - 1] + [last];
      if last in init then init else init + [last]
  }

  function Present(s: seq<Id>, components: set<Id>): (r: seq<Id>)
    ensures forall x :: x in r <==> x in s && x in components
  {
    if s == [] then []
    else
      assert s == s[..|s| - 1] + [s[|s| - 1]];
      Present(s[..|s| - 1], components) + (if s[|s| - 1] in components then [s[|s| - 1]] else [])
  }

  /** The components an epoch suspends. */
  function Targets(affected: seq<Id>, components: set<Id>): seq<Id> {
    Present(Deduped(affected), components)
  }

  /** Where c first occurs in s, or the length of s. */
  function FirstAt(s: seq<Id>, c: Id): (k: nat)
    ensures k <= |s| && (k < |s| ==> s[k] == c) && forall j :: 0 <= j < k ==> s[j] != c
  {
    if s == [] || s[0] == c then 0 else 1 + FirstAt(s[1..], c)
  }

  /** In the order in which they first occur in s, each once. */
  predicate ByFirst(t: seq<Id>, s: seq<Id>) {
    forall i, j :: 0 <= i < j < |t| ==> FirstAt(s, t[i]) < FirstAt(s, t[j])
  }

  lemma ByFirstOneMore(t: seq<Id>, x: Id, s: seq<Id>)
    requires ByFirst(t, s) && forall c :: c in t ==> FirstAt(s, c) < FirstAt(s, x)
    ensures ByFirst(t + [x], s)
  {
    assert forall i :: 0 <= i < |t| ==> t[i] in t;
  }

  lemma {:induction false} FirstAtStays(s: seq<Id>, x: Id, c: Id)
    requires c in s
    ensures FirstAt(s + [x], c) == FirstAt(s, c) < |s|
  {
    if s[0] == c {
    } else {
      assert (s + [x])[1..] == s[1..] + [x];
      FirstAtStays(s[1..], x, c);
    }
  }

  lemma {:induction false} DedupedByFirst(s: seq<Id>)
    ensures ByFirst(Deduped(s), s)
  {
    if s == [] {
    } else {
      var init, last := s[..|s| - 1], s[|s| - 1];
      var t := Deduped(init);
      DedupedByFirst(init);
      assert s == init + [last];
      forall c | c in t ensures FirstAt(s, c) == FirstAt(init, c) < |init| {
        FirstAtStays(init, last, c);
      }
      assert ByFirst(t, s) by {
        assert forall i :: 0 <= i < |t| ==> t[i] in t;
      }
      if last !in init {
        ByFirstOneMore(t, last, s);
      }
    }
  }

  lemma EarlierFirst(t: seq<Id>, s: seq<Id>, c: Id)
    requires t != [] && ByFirst(t, s) && c in t[..|t| - 1]
    ensures FirstAt(s, c) < FirstAt(s, t[|t| - 1])
  {
    var i :| 0 <= i < |t| - 1 && t[..|t| - 1][i] == c;
  }

  lemma {:induction false} PresentByFirst(t: seq<Id>, components: set<Id>, s: seq<Id>)
    requires ByFirst(t, s)
    ensures ByFirst(Present(t, components), s)
  {
    if t == [] {
    } else {
      var init, last := t[..|t| - 1], t[|t| - 1];
      PresentByFirst(init, components, s);
      if last in components {
        forall c | c in Present(init, components) ensures FirstAt(s, c) < FirstAt(s, last) {
          EarlierFirst(t, s, c);
        }
        ByFirstOneMore(Present(init, components), last, s);
      }
    }
  }

  /** Whom an epoch suspends: each affected component that is known, once, in order of first mention. */
  lemma TargetsExactly(affected: seq<Id>, components: set<Id>)
    ensures forall c :: c in Targets(affected, components) <==> c in affected && c in components
    ensures ByFirst(Targets(affected, components), affected)
  {
    DedupedByFirst(affected);
    PresentByFirst(Deduped(affected), components, affected);
  }

  predicate Running(p: Phase) {
    p == Activated || p == Phase.Committed
  }

  function SuspendedPhases(phases: Phases, targets: seq<Id>): Phases {
    map c | c in phases :: if c in targets && Running(phases[c]) then Suspended else phases[c]
  }

  function ResumedPhase(previous: Phases, c: Id): Phase {
    if c in previous && previous[c] == Phase.Committed then Phase.Committed else Activated
  }

  function ResumedPhases(phases: Phases, previous: Phases, targets: seq<Id>): Phases {
    map c | c in phases :: if c in targets && phases[c] == Suspended then ResumedPhase(previous, c) else phases[c]
  }

  function SuspendHooks(targets: seq<Id>): seq<Hook> {
    seq(|targets|, i requires 0 <= i < |targets| => SuspendHook(targets[i]))
  }

  function ResumeHooks(targets: seq<Id>): seq<Hook> {
    seq(|targets|, i requires 0 <= i < |targets| => ResumeHook(targets[|targets| - 1 - i]))
  }

  /** The phases remembered for the suspended components. */
  function Remembered(phases: Phases, targets: seq<Id>): Phases {
    map c | c in phases && c in targets :: phases[c]
  }

  /**
   * The bracket: suspending some components and later resuming those of them that are still known gives
   * every component its phase back, except that one suspended from the start comes back activated and a
   * running one that was removed in between stays suspended.
   */
  lemma SuspendResumeBracket(phases: Phases, suspended: seq<Id>, resumed: seq<Id>)
    requires forall c :: c in resumed ==> c in suspended
    ensures var after := ResumedPhases(SuspendedPhases(phases, suspended), Remembered(phases, suspended), resumed);
            && after.Keys == phases.Keys
            && forall c :: c in phases ==>
                 after[c] == if c in resumed && phases[c] == Suspended then Activated
                             else if c in suspended && c !in resumed && Running(phases[c]) then Suspended
                             else phases[c]
  {
  }

  // -------------------------------------------------------- the coordinator

  class DrainCoordinator {
    const engine: ConnectionEngine
    const bus: EventBus
    const lifecycle: LifecycleTracker?
    /** The components known now: others may have been removed since an epoch began. */
    var components: set<Id>
    const policy: DrainPolicy
    var currentEpoch: DrainEpoch?
    var reports: seq<DrainReport>
    var hooks: seq<Hook>

    constructor (engine: ConnectionEngine, components: set<Id>, lifecycle: LifecycleTracker?, policy: DrainPolicy)
      ensures this.engine == engine && this.bus == engine.bus && this.components == components
      ensures this.lifecycle == lifecycle && this.policy == policy
      ensures currentEpoch == null && reports == [] && hooks == []
    {
      this.engine, this.bus, this.components := engine, engine.bus, components;
      this.lifecycle, this.policy := lifecycle, policy;
      currentEpoch, reports, hooks := null, [], [];
    }

    /** Without a tracker no phase is known. */
    ghost function Phases(): Phases
      reads this, lifecycle
    {
      if lifecycle == null then map[] else lifecycle.phases
    }

    ghost predicate Wired()
      reads this
    {
      bus == engine.bus
    }

    /** How the next `begin` ends. */
    ghost function Opening(): BeginOutcome
      reads this, engine, bus
    {
      if currentEpoch != null then EpochActive
      else if engine.drainEpoch.Some? then RouteDrainActive
      else if bus.drainEpoch.Some? then EventDrainActive
      else if engine.inflight != 0 then TimedOut
      else Begun
    }

    /** An epoch or a drain is left over: every later `begin` fails. */
    ghost predicate Stuck()
      reads this, engine, bus
    {
      currentEpoch != null || engine.drainEpoch.Some? || bus.drainEpoch.Some?
    }

    /**
     * Opens an epoch. Any outcome but `Begun` raises: the epoch it may have
     * installed stays current and the drains it began stay active.
     */
    method Begin(epochId: string, affected: seq<Id>) returns (outcome: BeginOutcome, epoch: DrainEpoch)
      requires Wired()
      modifies this`currentEpoch, this`hooks, engine, bus, lifecycle
      ensures fresh(epoch) && epoch.epochId == epochId
      ensures outcome == old(Opening())
      ensures currentEpoch == if outcome == EpochActive then old(currentEpoch) else epoch
      ensures engine.State() == if outcome in {EpochActive, RouteDrainActive} then old(engine.State())
                                else RouteDrainBegun(old(engine.State()), epochId, policy.maxBufferedRoutes)
      ensures bus.State() == if outcome in {EpochActive, RouteDrainActive, EventDrainActive} then old(bus.State())
                             else DrainBegun(old(bus.State()), epochId, policy.maxBufferedEvents)
      ensures outcome != Begun ==> Phases() == old(Phases()) && hooks == old(hooks)
      ensures outcome == Begun ==>
                var targets := Targets(affected, components);
                && epoch.state == CuttingOver && epoch.suspendedComponents == targets
                && epoch.previousPhases == Remembered(old(Phases()), targets)
                && Phases() == SuspendedPhases(old(Phases()), targets)
                && hooks == old(hooks) + SuspendHooks(targets)
    {
      epoch := new DrainEpoch(epochId, Deduped(affected));
      if currentEpoch != null {
        return EpochActive, epoch;
      }
      epoch.state := Draining;
      currentEpoch := epoch;
      var routesDrain := engine.BeginDrain(epochId, policy.maxBufferedRoutes);
      if !routesDrain {
        return RouteDrainActive, epoch;
      }
      var eventsDrain := bus.BeginDrain(epochId, policy.maxBufferedEvents);
      if !eventsDrain {
        return EventDrainActive, epoch;
      }
      var quiet := engine.WaitForInflight();
      if !quiet {
        return TimedOut, epoch;
      }
      epoch.state := Quiesced;
      SuspendComponents(epoch);
      epoch.state := CuttingOver;
      outcome := Begun;
    }

    /**
     * Ends an epoch that cut over. When a replayed emission raises, the event drain stays active; when a
     * subscriber raises on a replayed event, both drains are over. Either way the epoch is forgotten
     * without a report.
     */
    method Complete(epoch: DrainEpoch) returns (outcome: EndOutcome)
      requires Wired()
      modifies this`currentEpoch, this`hooks, this`reports, engine, bus, lifecycle, epoch
      ensures outcome == NotCurrent <==> old(currentEpoch) != epoch
      ensures epoch.suspendedComponents == old(epoch.suspendedComponents)
      ensures outcome == NotCurrent ==>
                && currentEpoch == old(currentEpoch) && reports == old(reports) && hooks == old(hooks)
                && engine.State() == old(engine.State()) && bus.State() == old(bus.State()) && Phases() == old(Phases())
      ensures outcome != NotCurrent ==>
                var (e, b, ok) := RouteDrainEnded(old(engine.State()), old(bus.State()), policy.replayBuffered);
                var (c, heard) := DrainEnded(b, policy.replayBuffered);
                && engine.State() == e && currentEpoch == null
                && outcome == (if !ok then EndOutcome.ReplayRaised else if !heard then EventsRaised else Ended)
                && bus.State() == (if ok then c else b)
                && Phases() == ResumedPhases(old(Phases()), old(epoch.previousPhases),
                                             Present(old(epoch.suspendedComponents), components))
                && hooks == old(hooks) + ResumeHooks(Present(old(epoch.suspendedComponents), components))
                && reports == (if outcome == Ended then old(reports)
                     + [DrainReport(epoch.epochId, true, |old(engine.drainBuffer)|, |b.buffer|)] else old(reports))
                && epoch.state == (if outcome == Ended then Completed else Replaying)
    {
      if currentEpoch != epoch {
        return NotCurrent;
      }
      ResumeComponents(epoch);
      epoch.state := Replaying;
      var ok, routes := engine.EndDrain(policy.replayBuffered);
      if !ok {
        currentEpoch := null;
        return EndOutcome.ReplayRaised;
      }
      var heard, events := bus.EndDrain(policy.replayBuffered);
      if !heard {
        currentEpoch := null;
        return EventsRaised;
      }
      epoch.state := Completed;
      reports := reports + [DrainReport(epoch.epochId, true, routes, events)];
      currentEpoch := null;
      outcome := Ended;
    }

    /** Gives an epoch up: nothing held is dispatched. */
    method Abort(epoch: DrainEpoch) returns (outcome: EndOutcome)
      requires Wired()
      modifies this`currentEpoch, this`hooks, this`reports, engine, bus, lifecycle, epoch
      ensures outcome == if old(currentEpoch) != epoch then NotCurrent else Ended
      ensures outcome == NotCurrent ==>
                && currentEpoch == old(currentEpoch) && reports == old(reports) && hooks == old(hooks)
                && engine.State() == old(engine.State()) && bus.State() == old(bus.State()) && Phases() == old(Phases())
      ensures outcome == Ended ==>
                && engine.State() == RouteDrainLeft(old(engine.State())) && bus.State() == DrainLeft(old(bus.State()))
                && currentEpoch == null && epoch.state == Aborted
                && Phases() == ResumedPhases(old(Phases()), old(epoch.previousPhases),
                                              Present(old(epoch.suspendedComponents), components))
                && hooks == old(hooks) + ResumeHooks(Present(old(epoch.suspendedComponents), components))
                && reports == old(reports) + [DrainReport(epoch.epochId, false, 0, 0)]
    {
      if currentEpoch != epoch {
        return NotCurrent;
      }
      ResumeComponents(epoch);
      var ok, routes := engine.EndDrain(false);
      var heard, events := bus.EndDrain(false);
      epoch.state := Aborted;
      reports := reports + [DrainReport(epoch.epochId, false, 0, 0)];
      currentEpoch := null;
      outcome := Ended;
    }

    method SuspendComponents(epoch: DrainEpoch)
      requires epoch.suspendedComponents == [] && epoch.previousPhases == map[]
      requires Distinct(epoch.affectedComponents)
      modifies this`hooks, lifecycle, epoch`suspendedComponents, epoch`previousPhases
      ensures epoch.suspendedComponents == Present(epoch.affectedComponents, components)
      ensures epoch.previousPhases == Remembered(old(Phases()), epoch.suspendedComponents)
      ensures Phases() == SuspendedPhases(old(Phases()), epoch.suspendedComponents)
      ensures hooks == old(hooks) + SuspendHooks(epoch.suspendedComponents)
    {
      var affected := epoch.affectedComponents;
      ghost var before := Phases();
      SuspendNone(before);
      for k := 0 to |affected|
        invariant epoch.suspendedComponents == Present(affected[..k], components)
        invariant epoch.previousPhases == Remembered(before, epoch.suspendedComponents)
        invariant Phases() == SuspendedPhases(before, epoch.suspendedComponents)
        invariant hooks == old(hooks) + SuspendHooks(epoch.suspendedComponents)
      {
        var c := affected[k];
        assert affected[..k + 1][..k] == affected[..k];
        if c in components {
          assert c !in epoch.suspendedComponents;
          SuspendOneMore(before, epoch.suspendedComponents, c);
          SuspendOne(epoch, c);
        }
      }
      assert affected[..|affected|] == affected;
    }

    method SuspendOne(epoch: DrainEpoch, c: Id)
      modifies this`hooks, lifecycle, epoch`suspendedComponents, epoch`previousPhases
      ensures epoch.suspendedComponents == old(epoch.suspendedComponents) + [c]
      ensures hooks == old(hooks) + [SuspendHook(c)]
      ensures epoch.previousPhases == if c in old(Phases()) then old(epoch.previousPhases)[c := old(Phases())[c]]
                                      else old(epoch.previousPhases)
      ensures Phases() == if c in old(Phases()) && Running(old(Phases())[c]) then old(Phases())[c := Suspended]
                          else old(Phases())
    {
      var known := lifecycle != null && c in lifecycle.phases;
      if known {
        epoch.previousPhases := epoch.previousPhases[c := lifecycle.phases[c]];
      }
      hooks := hooks + [SuspendHook(c)];
      epoch.suspendedComponents := epoch.suspendedComponents + [c];
      if known && Running(lifecycle.phases[c]) {
        var legal := lifecycle.Record(c, Suspended);
        assert legal;
      }
    }

    /** Resumes in reverse; a component removed since the epoch began is passed over. */
    method ResumeComponents(epoch: DrainEpoch)
      modifies this`hooks, lifecycle
      ensures Phases()
           == ResumedPhases(old(Phases()), epoch.previousPhases, Present(epoch.suspendedComponents, components))
      ensures hooks == old(hooks) + ResumeHooks(Present(epoch.suspendedComponents, components))
    {
      var suspended := epoch.suspendedComponents;
      ghost var before, previous := Phases(), epoch.previousPhases;
      var k := |suspended|;
      ResumeNone(before, previous);
      assert suspended[k..] == [];
      while k > 0
        invariant 0 <= k <= |suspended|
        invariant Phases() == ResumedPhases(before, previous, Present(suspended[k..], components))
        invariant hooks == old(hooks) + ResumeHooks(Present(suspended[k..], components))
      {
        k := k - 1;
        var c := suspended[k];
        ResumeStep(before, previous, suspended, k, components);
        if c in components {
          ResumeOne(epoch, c);
        }
      }
      assert suspended[0..] == suspended;
    }

    method ResumeOne(epoch: DrainEpoch, c: Id)
      modifies this`hooks, lifecycle
      ensures hooks == old(hooks) + [ResumeHook(c)]
      ensures Phases() == if c in old(Phases()) && old(Phases())[c] == Suspended
                          then old(Phases())[c := ResumedPhase(epoch.previousPhases, c)] else old(Phases())
    {
      hooks := hooks + [ResumeHook(c)];
      if lifecycle != null && c in lifecycle.phases && lifecycle.phases[c] == Suspended {
        var target := if c in epoch.previousPhases then epoch.previousPhases[c] else Activated;
        var activated := lifecycle.Record(c, Activated);
        assert activated;
        if target == Phase.Committed {
          var committed := lifecycle.Record(c, Phase.Committed);
          assert committed;
        }
      }
    }
  }

  // -------------------------------------------------- one component at a time

  lemma SuspendNone(phases: Phases)
    ensures SuspendedPhases(phases, []) == phases
    ensures Remembered(phases, []) == map[]
  {
  }

  lemma SuspendOneMore(phases: Phases, targets: seq<Id>, c: Id)
    requires c !in targets
    ensures SuspendedPhases(phases, targets + [c])
            == if c in phases && Running(phases[c]) then SuspendedPhases(phases, targets)[c := Suspended]
               else SuspendedPhases(phases, targets)
    ensures c in phases ==> SuspendedPhases(phases, targets)[c] == phases[c]
    ensures Remembered(phases, targets + [c])
            == if c in phases then Remembered(phases, targets)[c := phases[c]] else Remembered(phases, targets)
    ensures SuspendHooks(targets + [c]) == SuspendHooks(targets) + [SuspendHook(c)]
  {
  }

  lemma ResumeNone(phases: Phases, previous: Phases)
    ensures ResumedPhases(phases, previous, []) == phases
  {
  }

  lemma ResumeOneMore(phases: Phases, previous: Phases, c: Id, targets: seq<Id>)
    ensures ResumedPhases(phases, previous, [c] + targets)
            == if c in phases && ResumedPhases(phases, previous, targets)[c] == Suspended
               then ResumedPhases(phases, previous, targets)[c := ResumedPhase(previous, c)]
               else ResumedPhases(phases, previous, targets)
    ensures ResumeHooks([c] + targets) == ResumeHooks(targets) + [ResumeHook(c)]
  {
  }

  lemma ResumeStep(phases: Phases, previous: Phases, suspended: seq<Id>, k: nat, components: set<Id>)
    requires k < |suspended|
    ensures var c, rest := suspended[k], Present(suspended[k + 1..], components);
            var now := Present(suspended[k..], components);
            if c in components then
              && ResumedPhases(phases, previous, now)
                 == (if c in phases && ResumedPhases(phases, previous, rest)[c] == Suspended
                     then ResumedPhases(phases, previous, rest)[c := ResumedPhase(previous, c)]
                     else ResumedPhases(phases, previous, rest))
              && ResumeHooks(now) == ResumeHooks(rest) + [ResumeHook(c)]
            else now == rest
  {
    assert suspended[k..] == [suspended[k]] + suspended[k + 1..];
    PresentCons(suspended[k], suspended[k + 1..], components);
    ResumeOneMore(phases, previous, suspended[k], Present(suspended[k + 1..], components));
  }

  lemma {:induction false} PresentCons(c: Id, s: seq<Id>, components: set<Id>)
    ensures Present([c] + s, components) == (if c in components then [c] else []) + Present(s, components)
  {
    var whole := [c] + s;
    if s == [] {
      assert whole[..|whole| - 1] == [];
    } else {
      var init := s[..|s| - 1];
      assert whole[..|whole| - 1] == [c] + init;
      PresentCons(c, init, components);
    }
  }

  /** While nothing is removed, everything that was suspended is resumed. */
  lemma {:induction false} PresentAll(s: seq<Id>, components: set<Id>)
    requires forall c :: c in s ==> c in components
    ensures Present(s, components) == s
  {
    if s == [] {
    } else {
      var init := s[..|s| - 1];
      assert s == init + [s[|s| - 1]];
      PresentAll(init, components);
    }
  }
}
