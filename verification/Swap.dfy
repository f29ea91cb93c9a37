/** Hot swap: one component's state moved to its replacement, as a saga of five steps. */
module Swap {
  import opened Models
  import opened Saga

  /** A hook returns or raises; either way it may have changed the component. */
  datatype Hooked<C> = Fine(component: C) | Raises(component: C, error: string, typeError: bool)

  datatype Exported<C, D> = State(component: C, state: D) | StateRaises(component: C, error: string)

  /** The lifecycle hooks of a component class: parameters, as the components are. */
  datatype Hooks<!C, !D> = Hooks(
    suspend: C -> Hooked<C>,
    exportState: C -> Exported<C, D>,
    deactivate: C -> Hooked<C>,
    activate: C -> Hooked<C>,
    transformState: (C, D) -> Exported<C, D>,
    resume: (C, Option<D>) -> Hooked<C>)

  datatype Migration<D> = Adapted(state: D) | NoAdapter | AdapterRaises(error: string)

  datatype Verdict = Passed | Rejected(reason: string)

  /** What surrounds a swap: both components' hooks, migration adapters and the observation window, if any. */
  datatype Setting<!C, !D> = Setting(
    outgoing: Hooks<C, D>,
    incoming: Hooks<C, D>,
    suspendedByDrain: bool,
    migrate: D -> Migration<D>,
    emptyState: D,
    observe: Option<(Option<D>, Option<D>) -> Verdict>)

  datatype SwapWorld<C, D> = SwapWorld(outgoing: C, incoming: C, checkpoint: Option<D>, migrated: Option<D>)

  // ------------------------------------------------------------------- steps

  function Capture<C, D>(t: Setting<C, D>, w: SwapWorld<C, D>): Outcome<SwapWorld<C, D>> {
    var suspended := if t.suspendedByDrain then Fine(w.outgoing) else t.outgoing.suspend(w.outgoing);
    if suspended.Raises? then Raised(w.(outgoing := suspended.component), suspended.error)
    else
      match t.outgoing.exportState(suspended.component)
      case State(c, state) => Done(w.(outgoing := c, checkpoint := Some(state)), "checkpoint")
      case StateRaises(c, error) => Raised(w.(outgoing := c), error)
  }

  function ResumeOutgoing<C, D>(t: Setting<C, D>, w: SwapWorld<C, D>): Outcome<SwapWorld<C, D>> {
    var r := t.outgoing.resume(w.outgoing, w.checkpoint);
    if r.Fine? then Done(w.(outgoing := r.component), "") else Raised(w.(outgoing := r.component), r.error)
  }

  function DeactivateOutgoing<C, D>(t: Setting<C, D>, w: SwapWorld<C, D>): Outcome<SwapWorld<C, D>> {
    var r := t.outgoing.deactivate(w.outgoing);
    if r.Fine? then Done(w.(outgoing := r.component), "") else Raised(w.(outgoing := r.component), r.error)
  }

  /** Activating again; a type error is taken to mean that there is no runtime to activate with. */
  function ReactivateOutgoing<C, D>(t: Setting<C, D>, w: SwapWorld<C, D>): Outcome<SwapWorld<C, D>> {
    var r := t.outgoing.activate(w.outgoing);
    if r.Fine? || r.typeError then Done(w.(outgoing := r.component), "")
    else Raised(w.(outgoing := r.component), r.error)
  }

  function MigrateState<C, D>(t: Setting<C, D>, w: SwapWorld<C, D>): Outcome<SwapWorld<C, D>> {
    if w.checkpoint.None? then Raised(w, "checkpoint missing before migration")
    else
      match t.migrate(w.checkpoint.value)
      case Adapted(state) => Done(w.(migrated := Some(state)), "migrated")
      case AdapterRaises(error) => Raised(w, error)
      case NoAdapter =>
        match t.incoming.transformState(w.incoming, w.checkpoint.value)
        case State(c, state) => Done(w.(incoming := c, migrated := Some(state)), "migrated")
        case StateRaises(c, error) => Raised(w.(incoming := c), error)
  }

  function ResumeIncoming<C, D>(t: Setting<C, D>, w: SwapWorld<C, D>): Outcome<SwapWorld<C, D>> {
    var state := if w.migrated.Some? then w.migrated.value else t.emptyState;
    var r := t.incoming.resume(w.incoming, Some(state));
    if r.Fine? then Done(w.(incoming := r.component), "") else Raised(w.(incoming := r.component), r.error)
  }

  function DeactivateIncoming<C, D>(t: Setting<C, D>, w: SwapWorld<C, D>): Outcome<SwapWorld<C, D>> {
    var r := t.incoming.deactivate(w.incoming);
    if r.Fine? then Done(w.(incoming := r.component), "") else Raised(w.(incoming := r.component), r.error)
  }

  function ObserveWindow<C, D>(t: Setting<C, D>, w: SwapWorld<C, D>): Outcome<SwapWorld<C, D>> {
    if t.observe.None? then Done(w, "observed")
    else
      match t.observe.value(w.checkpoint, w.migrated)
      case Passed => Done(w, "observed")
      case Rejected(reason) => Raised(w, reason)
  }

  function SwapSteps<C, D>(t: Setting<C, D>): (steps: seq<SagaStep<SwapWorld<C, D>>>)
    ensures |steps| == if t.observe.Some? then 5 else 4
  {
    [ SagaStep("capture", w => Capture(t, w), Some(w => ResumeOutgoing(t, w))),
      SagaStep("deactivate_outgoing", w => DeactivateOutgoing(t, w), Some(w => ReactivateOutgoing(t, w))),
      SagaStep("migrate_state", w => MigrateState(t, w), None),
      SagaStep("resume_incoming", w => ResumeIncoming(t, w), Some(w => DeactivateIncoming(t, w))) ]
    + (if t.observe.Some? then [SagaStep("observe_window", w => ObserveWindow(t, w), None)] else [])
  }

  lemma StepNamesDistinct<C, D>(t: Setting<C, D>)
    ensures DistinctNames(SwapSteps(t))
  {
    assert |"capture"| == 7 && |"deactivate_outgoing"| == 19 && |"migrate_state"| == 13;
    assert |"resume_incoming"| == 15 && |"observe_window"| == 14;
  }

  // ------------------------------------------------------------- forward worlds

  ghost function Start<C, D>(outgoing: C, incoming: C): SwapWorld<C, D> {
    SwapWorld(outgoing, incoming, None, None)
  }

  /** The first n forward steps, written out. */
  ghost function Forward<C, D>(t: Setting<C, D>, w: SwapWorld<C, D>, n: nat): SwapWorld<C, D>
    requires n <= 5
  {
    if n == 0 then w
    else if n == 1 then Capture(t, w).world
    else if n == 2 then DeactivateOutgoing(t, Forward(t, w, 1)).world
    else if n == 3 then MigrateState(t, Forward(t, w, 2)).world
    else if n == 4 then ResumeIncoming(t, Forward(t, w, 3)).world
    else ObserveWindow(t, Forward(t, w, 4)).world
  }

  lemma {:induction false} AfterIsForward<C, D>(t: Setting<C, D>, w: SwapWorld<C, D>, n: nat)
    requires n <= |SwapSteps(t)|
    ensures After(SwapSteps(t), w, n) == Forward(t, w, n)
  {
    if n == 0 {
    } else {
      AfterIsForward(t, w, n - 1);
    }
  }

  /** What forward step i does. */
  ghost function StepOutcome<C, D>(t: Setting<C, D>, w: SwapWorld<C, D>, i: nat): Outcome<SwapWorld<C, D>>
    requires i < 5
  {
    if i == 0 then Capture(t, w)
    else if i == 1 then DeactivateOutgoing(t, Forward(t, w, 1))
    else if i == 2 then MigrateState(t, Forward(t, w, 2))
    else if i == 3 then ResumeIncoming(t, Forward(t, w, 3))
    else ObserveWindow(t, Forward(t, w, 4))
  }

  lemma ForwardIsOutcome<C, D>(t: Setting<C, D>, w: SwapWorld<C, D>, i: nat)
    requires i < |SwapSteps(t)|
    ensures SwapSteps(t)[i].forward(After(SwapSteps(t), w, i)) == StepOutcome(t, w, i)
  {
    AfterIsForward(t, w, i);
  }

  lemma {:induction false} CompletesExactly<C, D>(t: Setting<C, D>, w: SwapWorld<C, D>, n: nat)
    requires n <= |SwapSteps(t)|
    ensures Completes(SwapSteps(t), w, n) <==> forall i: nat :: i < n ==> StepOutcome(t, w, i).Done?
  {
    if n == 0 {
    } else {
      CompletesExactly(t, w, n - 1);
      ForwardIsOutcome(t, w, n - 1);
    }
  }

  lemma LaterStepsKeep<C, D>(t: Setting<C, D>, w: SwapWorld<C, D>)
    ensures forall n: nat :: 1 <= n <= 5 ==> Forward(t, w, n).checkpoint == Forward(t, w, 1).checkpoint
    ensures forall n: nat :: 2 <= n <= 5 ==> Forward(t, w, n).outgoing == Forward(t, w, 2).outgoing
  {
    assert Forward(t, w, 3).checkpoint == Forward(t, w, 2).checkpoint == Forward(t, w, 1).checkpoint;
    assert Forward(t, w, 5).checkpoint == Forward(t, w, 4).checkpoint == Forward(t, w, 3).checkpoint;
    assert Forward(t, w, 5).outgoing == Forward(t, w, 4).outgoing == Forward(t, w, 3).outgoing;
  }

  // ---------------------------------------------------------- completed swaps

  /** The outgoing component when its state is exported: suspended by the swap, unless a drain has done that. */
  ghost function Halted<C, D>(t: Setting<C, D>, outgoing: C): Hooked<C> {
    if t.suspendedByDrain then Fine(outgoing) else t.outgoing.suspend(outgoing)
  }

  /** The incoming component once the checkpoint was migrated, and the state it is to be resumed with. */
  ghost function Prepared<C, D>(t: Setting<C, D>, incoming: C, checkpoint: D): Exported<C, D> {
    match t.migrate(checkpoint)
    case Adapted(state) => State(incoming, state)
    case AdapterRaises(error) => StateRaises(incoming, error)
    case NoAdapter => t.incoming.transformState(incoming, checkpoint)
  }

  /**
   * What a completed swap has done, hook by hook. The checkpoint is what the suspended outgoing component
   * exported. It was migrated by the adapter or, without one, by the incoming component. The incoming
   * component is as resuming with the migrated state left it, the outgoing one as deactivation left it, and
   * the observation, if there is one, passed.
   */
  ghost predicate Swapped<C, D>(t: Setting<C, D>, outgoing: C, incoming: C, end: SwapWorld<C, D>) {
    var halted := Halted(t, outgoing);
    var exported := t.outgoing.exportState(halted.component);
    && halted.Fine? && exported.State?
    && end.checkpoint == Some(exported.state)
    && t.outgoing.deactivate(exported.component) == Fine(end.outgoing)
    && var prepared := Prepared(t, incoming, exported.state);
    && prepared.State? && end.migrated == Some(prepared.state)
    && t.incoming.resume(prepared.component, end.migrated) == Fine(end.incoming)
    && (t.observe.Some? ==> t.observe.value(end.checkpoint, end.migrated) == Passed)
  }

  /** A swap completes exactly when all of these hooks return, and then it has done just that. */
  lemma CompletedSwap<C, D>(t: Setting<C, D>, outgoing: C, incoming: C)
    ensures var steps, w := SwapSteps(t), Start(outgoing, incoming);
            Completes(steps, w, |steps|) <==> Swapped(t, outgoing, incoming, After(steps, w, |steps|))
  {
    var steps, w: SwapWorld<C, D> := SwapSteps(t), Start(outgoing, incoming);
    AfterIsForward(t, w, |steps|);
    CompletesExactly(t, w, |steps|);
    AllDoneMeansSwapped(t, outgoing, incoming);
    assert (forall i: nat :: i < |steps| ==> StepOutcome(t, w, i).Done?) <==>
             && StepOutcome(t, w, 0).Done? && StepOutcome(t, w, 1).Done?
             && StepOutcome(t, w, 2).Done? && StepOutcome(t, w, 3).Done?
             && (t.observe.Some? ==> StepOutcome(t, w, 4).Done?);
  }

  lemma AllDoneMeansSwapped<C, D>(t: Setting<C, D>, outgoing: C, incoming: C)
    ensures var w := Start(outgoing, incoming);
            (&& StepOutcome(t, w, 0).Done? && StepOutcome(t, w, 1).Done?
             && StepOutcome(t, w, 2).Done? && StepOutcome(t, w, 3).Done?
             && (t.observe.Some? ==> StepOutcome(t, w, 4).Done?))
            <==> Swapped(t, outgoing, incoming, Forward(t, w, if t.observe.Some? then 5 else 4))
  {
    var w: SwapWorld<C, D> := Start(outgoing, incoming);
    LaterStepsKeep(t, w);
    var captured, deactivated := Forward(t, w, 1), Forward(t, w, 2);
    var migrated, resumed := Forward(t, w, 3), Forward(t, w, 4);
    assert captured == Capture(t, w).world && deactivated == DeactivateOutgoing(t, captured).world;
    assert migrated == MigrateState(t, deactivated).world && resumed == ResumeIncoming(t, migrated).world;
    assert Forward(t, w, 5) == resumed;
    assert captured.incoming == incoming && deactivated.incoming == incoming;
    assert resumed.migrated == migrated.migrated;
  }

  // ------------------------------------------------------------------ rollback

  /** What the compensations of the first n completed steps do, written out. */
  ghost function Backward<C, D>(t: Setting<C, D>, w: SwapWorld<C, D>, n: nat): SwapWorld<C, D>
    requires n <= 4
  {
    if n == 0 then w
    else if n == 1 then ResumeOutgoing(t, w).world
    else if n <= 3 then ResumeOutgoing(t, ReactivateOutgoing(t, w).world).world
    else ResumeOutgoing(t, ReactivateOutgoing(t, DeactivateIncoming(t, w).world).world).world
  }

  lemma UndoneIsBackward<C, D>(t: Setting<C, D>, w: SwapWorld<C, D>, n: nat)
    requires n < |SwapSteps(t)|
    ensures Undone(SwapSteps(t), 0, n, w) == Backward(t, w, n)
  {
    var steps := SwapSteps(t);
    assert Reverted(steps[0], w) == ResumeOutgoing(t, w).world;
    if n >= 1 { UndoneFirst(steps, n, w); }
    if n >= 2 { UndoneSecond(steps, n, w); }
    if n == 4 {
      assert Undone(steps, 2, 4, w) == Undone(steps, 2, 3, Reverted(steps[3], w));
    }
  }

  lemma {:induction false} UndoneFirst<S>(steps: seq<SagaStep<S>>, n: nat, w: S)
    requires 1 <= n <= |steps|
    ensures Undone(steps, 0, n, w) == Reverted(steps[0], Undone(steps, 1, n, w))
  {
    if n <= 1 {
    } else {
      UndoneFirst(steps, n - 1, Reverted(steps[n - 1], w));
    }
  }

  lemma {:induction false} UndoneSecond<S>(steps: seq<SagaStep<S>>, n: nat, w: S)
    requires 2 <= n <= |steps|
    ensures Undone(steps, 1, n, w) == Reverted(steps[1], Undone(steps, 2, n, w))
  {
    if n <= 2 {
    } else {
      UndoneSecond(steps, n - 1, Reverted(steps[n - 1], w));
    }
  }

  /**
   * Where a swap that failed at step n leaves the components, hook by hook. The outgoing one is resumed
   * from its checkpoint, as the last thing done to it, exactly when the failing step came after the
   * capture; a capture that fails leaves it as the suspension or the export left it. The incoming one is
   * as the step that failed left it, deactivated if it had been resumed.
   */
  ghost predicate RolledBack<C, D>(
    t: Setting<C, D>, outgoing: C, incoming: C, n: nat, end: SwapWorld<C, D>)
  {
    var halted := Halted(t, outgoing);
    var exported := t.outgoing.exportState(halted.component);
    if n == 0 then
      && end.checkpoint == None && end.incoming == incoming
      && end.outgoing == if halted.Fine? then exported.component else halted.component
    else
      && exported.State? && end.checkpoint == Some(exported.state)
      && var stopped := t.outgoing.deactivate(exported.component).component;
      && end.outgoing == t.outgoing.resume(if n == 1 then stopped else t.outgoing.activate(stopped).component,
                                           end.checkpoint).component
      && var prepared := Prepared(t, incoming, exported.state);
      && (n <= 1 ==> end.incoming == incoming)
      && (n == 2 ==> end.incoming == prepared.component)
      && (n >= 3 ==> prepared.State?)
      && (n == 3 ==> end.incoming == t.incoming.resume(prepared.component, Some(prepared.state)).component)
      && (n >= 4 ==> end.incoming == t.incoming.deactivate(
                       t.incoming.resume(prepared.component, Some(prepared.state)).component).component)
  }

  lemma FailedSwapResumesOutgoing<C, D>(t: Setting<C, D>, outgoing: C, incoming: C, n: nat)
    requires FailsAt(SwapSteps(t), Start(outgoing, incoming), n)
    ensures RolledBack(t, outgoing, incoming, n,
                       Undone(SwapSteps(t), 0, n, After(SwapSteps(t), Start(outgoing, incoming), n + 1)))
  {
    var w: SwapWorld<C, D> := Start(outgoing, incoming);
    AfterIsForward(t, w, n + 1);
    UndoneIsBackward(t, Forward(t, w, n + 1), n);
    CompletesExactly(t, w, n);
    ForwardIsOutcome(t, w, n);
    BackwardResumes(t, outgoing, incoming, n);
  }

  lemma BackwardResumes<C, D>(t: Setting<C, D>, outgoing: C, incoming: C, n: nat)
    requires n < 5
    requires var w := Start(outgoing, incoming);
             (forall i: nat :: i < n ==> StepOutcome(t, w, i).Done?) && StepOutcome(t, w, n).Raised?
    ensures RolledBack(t, outgoing, incoming, n,
                       Backward(t, Forward(t, Start(outgoing, incoming), n + 1), n))
  {
    var w: SwapWorld<C, D> := Start(outgoing, incoming);
    assert n >= 1 ==> StepOutcome(t, w, 0).Done?;
    assert n >= 2 ==> StepOutcome(t, w, 1).Done?;
    assert n >= 3 ==> StepOutcome(t, w, 2).Done?;
    assert n >= 4 ==> StepOutcome(t, w, 3).Done?;
    LaterStepsKeep(t, w);
  }

  /** Why a swap fails at step n: the hook that raised there, or the observation that was rejected. */
  ghost predicate FailsWith<C, D>(t: Setting<C, D>, outgoing: C, incoming: C, n: nat, error: string) {
    var halted := Halted(t, outgoing);
    var exported := t.outgoing.exportState(halted.component);
    if n == 0 then
      if halted.Raises? then error == halted.error else exported.StateRaises? && error == exported.error
    else
      && exported.State?
      && var stopped := t.outgoing.deactivate(exported.component);
      var prepared := Prepared(t, incoming, exported.state);
      && (n == 1 ==> stopped.Raises? && error == stopped.error)
      && (n == 2 ==> prepared.StateRaises? && error == prepared.error)
      && (n >= 3 ==> prepared.State?)
      && (n == 3 ==> var resumed := t.incoming.resume(prepared.component, Some(prepared.state));
                     resumed.Raises? && error == resumed.error)
      && (n >= 4 ==>
            t.observe.Some? && t.observe.value(Some(exported.state), Some(prepared.state)) == Rejected(error))
  }

  /**
   * The results of a swap that failed at step n: the steps up to it, of which all but it succeeded. Each
   * completed one is flagged as compensated if its compensation returned; a type error when the outgoing
   * component is activated again counts as a return, and migration has nothing to be compensated.
   */
  ghost predicate Reported<C, D>(
    t: Setting<C, D>, outgoing: C, incoming: C, n: nat, results: seq<StepResult>)
  {
    && |results| == n + 1 <= 5
    && (forall i :: 0 <= i <= n ==> results[i].name == STEP_NAMES[i] && (results[i].success <==> i < n))
    && !results[n].compensated && results[n].error.Some?
    && FailsWith(t, outgoing, incoming, n, results[n].error.value)
    && (n >= 3 ==> !results[2].compensated)
    && Undoing(t, outgoing, incoming, n, results[0].compensated, n >= 2 && results[1].compensated,
               n >= 4 && results[3].compensated)
  }

  const STEP_NAMES := ["capture", "deactivate_outgoing", "migrate_state", "resume_incoming", "observe_window"]

  /** The compensation of step i that returns. */
  ghost predicate Undoes<C, D>(t: Setting<C, D>, i: nat, w: SwapWorld<C, D>) {
    if i == 0 then ResumeOutgoing(t, w).Done?
    else if i == 1 then ReactivateOutgoing(t, w).Done?
    else i == 3 && DeactivateIncoming(t, w).Done?
  }

  /** The world in which the compensation of step i is tried. */
  ghost function FoundBy<C, D>(t: Setting<C, D>, w: SwapWorld<C, D>, n: nat, i: nat): SwapWorld<C, D>
    requires i < n <= 4
  {
    if n == i + 1 then w
    else if i >= 1 && n == 3 then w
    else if i >= 1 then DeactivateIncoming(t, w).world
    else ReactivateOutgoing(t, if n <= 3 then w else DeactivateIncoming(t, w).world).world
  }

  lemma UndoneIsFound<C, D>(t: Setting<C, D>, w: SwapWorld<C, D>, n: nat, i: nat)
    requires i < n < |SwapSteps(t)|
    ensures Undone(SwapSteps(t), i + 1, n, w) == FoundBy(t, w, n, i)
  {
    var steps := SwapSteps(t);
    if n >= 2 && i == 0 { UndoneSecond(steps, n, w); }
    if n == 4 {
      assert Undone(steps, 2, 4, w) == Undone(steps, 2, 3, Reverted(steps[3], w));
    }
  }

  lemma FlagIs<C, D>(t: Setting<C, D>, w: SwapWorld<C, D>, n: nat, results: seq<StepResult>, i: nat)
    requires n < |SwapSteps(t)| && |results| == n + 1 && i < n && !results[i].compensated
    ensures var marked := Marked(SwapSteps(t), n, w, results)[i];
            && marked.name == results[i].name && marked.success == results[i].success
            && (marked.compensated <==> Undoes(t, i, FoundBy(t, w, n, i)))
  {
    MarkedExactly(SwapSteps(t), n, w, results, i);
    UndoneIsFound(t, w, n, i);
  }

  lemma TriedStep<C, D>(t: Setting<C, D>, outgoing: C, incoming: C, n: nat, i: nat)
    requires FailsAt(SwapSteps(t), Start(outgoing, incoming), n) && i <= n
    ensures var result := Tried(SwapSteps(t), Start(outgoing, incoming), n + 1)[i];
            && result.name == STEP_NAMES[i] && (result.success <==> i < n) && !result.compensated
  {
    if i < n { CompletedSucceeded(SwapSteps(t), Start(outgoing, incoming), n, i); }
    TriedUncompensated(SwapSteps(t), Start(outgoing, incoming), n + 1, i);
  }

  lemma {:induction false} TriedUncompensated<S>(steps: seq<SagaStep<S>>, s: S, n: nat, i: nat)
    requires i < n <= |steps|
    ensures !Tried(steps, s, n)[i].compensated && Tried(steps, s, n)[i].name == steps[i].name
  {
    if i < n - 1 { TriedUncompensated(steps, s, n - 1, i); }
  }

  lemma FailingResult<C, D>(t: Setting<C, D>, outgoing: C, incoming: C, n: nat)
    requires FailsAt(SwapSteps(t), Start(outgoing, incoming), n)
    ensures StepOutcome(t, Start(outgoing, incoming), n).Raised?
    ensures Tried(SwapSteps(t), Start(outgoing, incoming), n + 1)[n].error
         == Some(StepOutcome(t, Start(outgoing, incoming), n).error)
  {
    ForwardIsOutcome(t, Start(outgoing, incoming), n);
  }

  lemma FailureMeans<C, D>(t: Setting<C, D>, outgoing: C, incoming: C, n: nat)
    requires n < 5 && (n == 4 ==> t.observe.Some?)
    requires var w := Start(outgoing, incoming);
             (forall i: nat :: i < n ==> StepOutcome(t, w, i).Done?) && StepOutcome(t, w, n).Raised?
    ensures FailsWith(t, outgoing, incoming, n, StepOutcome(t, Start(outgoing, incoming), n).error)
  {
    var w: SwapWorld<C, D> := Start(outgoing, incoming);
    assert n >= 1 ==> StepOutcome(t, w, 0).Done?;
    assert n >= 2 ==> StepOutcome(t, w, 1).Done?;
    assert n >= 3 ==> StepOutcome(t, w, 2).Done?;
    assert n >= 4 ==> StepOutcome(t, w, 3).Done?;
    LaterStepsKeep(t, w);
  }

  /** Whether the compensations of a swap that fails at step n return, hook by hook. */
  ghost predicate Undoing<C, D>(
    t: Setting<C, D>, outgoing: C, incoming: C, n: nat, first: bool, second: bool, fourth: bool)
  {
    n >= 1 ==>
      var exported := t.outgoing.exportState(Halted(t, outgoing).component);
      && exported.State?
      && var again := t.outgoing.activate(t.outgoing.deactivate(exported.component).component);
      var last := if n == 1 then t.outgoing.deactivate(exported.component).component else again.component;
      && (first <==> t.outgoing.resume(last, Some(exported.state)).Fine?)
      && (n >= 2 ==> (second <==> again.Fine? || again.typeError))
      && (n >= 4 ==>
            var prepared := Prepared(t, incoming, exported.state);
            && prepared.State?
            && (fourth <==> t.incoming.deactivate(
                  t.incoming.resume(prepared.component, Some(prepared.state)).component).Fine?))
  }

  lemma UndoingMeans<C, D>(t: Setting<C, D>, outgoing: C, incoming: C, n: nat)
    requires n < 5
    requires var w := Start(outgoing, incoming);
             (forall i: nat :: i < n ==> StepOutcome(t, w, i).Done?) && StepOutcome(t, w, n).Raised?
    ensures var w := Forward(t, Start(outgoing, incoming), n + 1);
            Undoing(t, outgoing, incoming, n, n >= 1 && Undoes(t, 0, FoundBy(t, w, n, 0)),
                    n >= 2 && Undoes(t, 1, FoundBy(t, w, n, 1)), n >= 4 && Undoes(t, 3, FoundBy(t, w, n, 3)))
  {
    var w: SwapWorld<C, D> := Start(outgoing, incoming);
    assert n >= 1 ==> StepOutcome(t, w, 0).Done?;
    assert n >= 2 ==> StepOutcome(t, w, 1).Done?;
    assert n >= 3 ==> StepOutcome(t, w, 2).Done?;
    assert n >= 4 ==> StepOutcome(t, w, 3).Done?;
    LaterStepsKeep(t, w);
  }

  /** Names, successes and flags of the results of a swap that failed at step n. */
  ghost predicate StepsReported<C, D>(
    t: Setting<C, D>, n: nat, world: SwapWorld<C, D>, results: seq<StepResult>)
  {
    && |results| == n + 1 <= 5 && results[n].name == STEP_NAMES[n] && !results[n].success && !results[n].compensated
    && forall i: nat :: i < n ==>
         && results[i].name == STEP_NAMES[i] && results[i].success
         && (results[i].compensated <==> Undoes(t, i, FoundBy(t, world, n, i)))
  }

  lemma StepsAreReported<C, D>(t: Setting<C, D>, outgoing: C, incoming: C, n: nat, world: SwapWorld<C, D>)
    requires FailsAt(SwapSteps(t), Start(outgoing, incoming), n)
    ensures var tried := Tried(SwapSteps(t), Start(outgoing, incoming), n + 1);
            var results := Marked(SwapSteps(t), n, world, tried);
            StepsReported(t, n, world, results) && results[n].error == tried[n].error
  {
    var tried := Tried(SwapSteps(t), Start(outgoing, incoming), n + 1);
    var results := Marked(SwapSteps(t), n, world, tried);
    MarkedExactly(SwapSteps(t), n, world, tried, n);
    TriedStep(t, outgoing, incoming, n, n);
    forall i: nat | i < n
      ensures results[i].name == STEP_NAMES[i] && results[i].success
      ensures results[i].compensated <==> Undoes(t, i, FoundBy(t, world, n, i))
    {
      CompletedStep(t, outgoing, incoming, n, i, world);
    }
  }

  lemma FailedSwapReports<C, D>(t: Setting<C, D>, outgoing: C, incoming: C, n: nat)
    requires FailsAt(SwapSteps(t), Start(outgoing, incoming), n)
    ensures var steps, w := SwapSteps(t), Start(outgoing, incoming);
            Reported(t, outgoing, incoming, n,
                     Marked(steps, n, After(steps, w, n + 1), Tried(steps, w, n + 1)))
  {
    var w: SwapWorld<C, D> := Start(outgoing, incoming);
    var world := Forward(t, w, n + 1);
    AfterIsForward(t, w, n + 1);
    FailingResult(t, outgoing, incoming, n);
    CompletesExactly(t, w, n);
    StepsAreReported(t, outgoing, incoming, n, world);
    FailureMeans(t, outgoing, incoming, n);
    UndoingMeans(t, outgoing, incoming, n);
    ReportedIs(t, outgoing, incoming, n, world, Marked(SwapSteps(t), n, world, Tried(SwapSteps(t), w, n + 1)));
  }

  lemma ReportedIs<C, D>(
    t: Setting<C, D>, outgoing: C, incoming: C, n: nat, world: SwapWorld<C, D>, results: seq<StepResult>)
    requires n < 5 && StepsReported(t, n, world, results)
    requires results[n].error.Some? && FailsWith(t, outgoing, incoming, n, results[n].error.value)
    requires Undoing(t, outgoing, incoming, n, n >= 1 && Undoes(t, 0, FoundBy(t, world, n, 0)),
                     n >= 2 && Undoes(t, 1, FoundBy(t, world, n, 1)), n >= 4 && Undoes(t, 3, FoundBy(t, world, n, 3)))
    ensures Reported(t, outgoing, incoming, n, results)
  {
    assert n >= 1 ==> (results[0].compensated <==> Undoes(t, 0, FoundBy(t, world, n, 0)));
  }

  lemma CompletedStep<C, D>(t: Setting<C, D>, outgoing: C, incoming: C, n: nat, i: nat, world: SwapWorld<C, D>)
    requires FailsAt(SwapSteps(t), Start(outgoing, incoming), n) && i < n
    ensures var result := Marked(SwapSteps(t), n, world, Tried(SwapSteps(t), Start(outgoing, incoming), n + 1))[i];
            && result.name == STEP_NAMES[i] && result.success
            && (result.compensated <==> Undoes(t, i, FoundBy(t, world, n, i)))
  {
    TriedStep(t, outgoing, incoming, n, i);
    FlagIs(t, world, n, Tried(SwapSteps(t), Start(outgoing, incoming), n + 1), i);
  }

  /** A swap that failed has not done what a completed one does. */
  lemma FailedIsNotSwapped<C, D>(
    t: Setting<C, D>, outgoing: C, incoming: C, n: nat, error: string, end: SwapWorld<C, D>)
    requires n < 5 && FailsWith(t, outgoing, incoming, n, error)
    ensures !Swapped(t, outgoing, incoming, end)
  {
  }

  /** The results of a swap that completed. */
  ghost predicate AllReported<C, D>(t: Setting<C, D>, results: seq<StepResult>) {
    && |results| == (if t.observe.Some? then 5 else 4)
    && forall i :: 0 <= i < |results| ==>
         results[i].name == STEP_NAMES[i] && results[i].success && results[i].error == None && !results[i].compensated
  }

  lemma CompletedSwapReports<C, D>(t: Setting<C, D>, outgoing: C, incoming: C)
    requires Completes(SwapSteps(t), Start(outgoing, incoming), |SwapSteps(t)|)
    ensures AllReported(t, Tried(SwapSteps(t), Start(outgoing, incoming), |SwapSteps(t)|))
  {
    var steps, w: SwapWorld<C, D> := SwapSteps(t), Start(outgoing, incoming);
    forall i | 0 <= i < |steps|
      ensures var result := Tried(steps, w, |steps|)[i];
              && result.name == STEP_NAMES[i] && result.success && result.error == None && !result.compensated
    {
      CompletedSucceeded(steps, w, |steps|, i);
      TriedUncompensated(steps, w, |steps|, i);
    }
  }

  /** Hooks of a component that can be taken through a swap and back without a trace. */
  ghost predicate Reversible<C(!new), D(!new)>(t: Setting<C, D>) {
    && (forall c :: var s := t.outgoing.suspend(c);
          s.Fine? ==> var e := t.outgoing.exportState(s.component);
          e.State? ==> e.component == s.component && t.outgoing.resume(s.component, Some(e.state)).component == c)
    && (forall c :: t.outgoing.deactivate(c).Fine? ==>
          t.outgoing.activate(t.outgoing.deactivate(c).component).component == c)
    && (forall c, d :: t.incoming.resume(c, d).Fine? ==>
          t.incoming.deactivate(t.incoming.resume(c, d).component).component == c)
    && (forall c, d :: t.incoming.transformState(c, d).component == c)
  }

  /**
   * With reversible hooks and a failing step that left the components alone, a failed swap gives both
   * components back as they were.
   */
  lemma FailedSwapRestores<C(!new), D(!new)>(t: Setting<C, D>, outgoing: C, incoming: C, n: nat)
    requires Reversible(t) && !t.suspendedByDrain
    requires FailsAt(SwapSteps(t), Start(outgoing, incoming), n)
    requires After(SwapSteps(t), Start(outgoing, incoming), n + 1) == After(SwapSteps(t), Start(outgoing, incoming), n)
    ensures var end := Undone(SwapSteps(t), 0, n, After(SwapSteps(t), Start(outgoing, incoming), n + 1));
            end.outgoing == outgoing && end.incoming == incoming
  {
    var w: SwapWorld<C, D> := Start(outgoing, incoming);
    AfterIsForward(t, w, n);
    AfterIsForward(t, w, n + 1);
    UndoneIsBackward(t, Forward(t, w, n + 1), n);
    CompletesExactly(t, w, n);
    BackwardRestores(t, w, n);
  }

  lemma BackwardRestores<C(!new), D(!new)>(t: Setting<C, D>, w: SwapWorld<C, D>, n: nat)
    requires Reversible(t) && !t.suspendedByDrain && n <= 4
    requires forall i: nat :: i < n ==> StepOutcome(t, w, i).Done?
    ensures Backward(t, Forward(t, w, n), n).outgoing == w.outgoing
    ensures Backward(t, Forward(t, w, n), n).incoming == w.incoming
  {
    assert n >= 1 ==> StepOutcome(t, w, 0).Done?;
    assert n >= 2 ==> StepOutcome(t, w, 1).Done?;
    assert n >= 3 ==> StepOutcome(t, w, 2).Done?;
    assert n >= 4 ==> StepOutcome(t, w, 3).Done?;
  }

  // ---------------------------------------------------------------- the swap

  datatype HotSwapReport<D> = HotSwapReport(
    success: bool, checkpoint: Option<D>, migrated: Option<D>, error: Option<string>, sagaResults: seq<StepResult>)

  const NOT_APPROVED := "protected component requires explicit hot-swap approval"

  lemma {:induction false} ErrorOfFailing(results: seq<StepResult>, n: nat)
    requires n < |results| && !results[n].success && forall i :: 0 <= i < n ==> results[i].success
    ensures FirstError(results) == results[n].error
    decreases n
  {
    if n == 0 {
    } else {
      ErrorOfFailing(results[1..], n - 1);
    }
  }

  /** The error of the first result that did not succeed. */
  ghost function FirstError(results: seq<StepResult>): Option<string> {
    if results == [] then Some("unknown saga failure")
    else if !results[0].success then results[0].error
    else FirstError(results[1..])
  }

  /** The last result tells the failing step; the completed ones were compensated and flagged. */
  ghost predicate SagaFailed<S>(steps: seq<SagaStep<S>>, w: S, end: S, results: seq<StepResult>) {
    && results != []
    && FailsAt(steps, w, |results| - 1)
    && end == Undone(steps, 0, |results| - 1, After(steps, w, |results|))
    && results == Marked(steps, |results| - 1, After(steps, w, |results|), Tried(steps, w, |results|))
  }

  /** A swap that failed at its last result: where that leaves the components and what the report says. */
  ghost predicate FailedSwap<C, D>(
    t: Setting<C, D>, outgoing: C, incoming: C, end: SwapWorld<C, D>, results: seq<StepResult>, error: Option<string>)
  {
    && results != []
    && RolledBack(t, outgoing, incoming, |results| - 1, end)
    && Reported(t, outgoing, incoming, |results| - 1, results)
    && error == results[|results| - 1].error
  }

  lemma FailedSwapTells<C, D>(
    t: Setting<C, D>, outgoing: C, incoming: C, end: SwapWorld<C, D>, results: seq<StepResult>)
    requires SagaFailed(SwapSteps(t), Start(outgoing, incoming), end, results)
    ensures FailedSwap(t, outgoing, incoming, end, results, FirstError(results))
    ensures !Swapped(t, outgoing, incoming, end)
  {
    var n := |results| - 1;
    FailedSwapResumesOutgoing(t, outgoing, incoming, n);
    FailedSwapReports(t, outgoing, incoming, n);
    ErrorOfFailing(results, n);
    FailedIsNotSwapped(t, outgoing, incoming, n, results[n].error.value, end);
  }

  /** Swaps `outgoing` for `incoming`; protected components need approval and are otherwise not touched. */
  method HotSwap<C, D>(t: Setting<C, D>, protected: bool, allowProtected: bool, outgoing: C, incoming: C)
    returns (report: HotSwapReport<D>, world: SwapWorld<C, D>)
    ensures protected && !allowProtected ==>
      world == Start(outgoing, incoming) && report == HotSwapReport(false, None, None, Some(NOT_APPROVED), [])
    ensures !protected || allowProtected ==>
      && (report.success <==> Swapped(t, outgoing, incoming, world))
      && (report.success ==> report.error == None && AllReported(t, report.sagaResults))
      && (!report.success ==> FailedSwap(t, outgoing, incoming, world, report.sagaResults, report.error))
      && report.checkpoint == world.checkpoint && report.migrated == world.migrated
  {
    world := SwapWorld(outgoing, incoming, None, None);
    if protected && !allowProtected {
      return HotSwapReport(false, None, None, Some(NOT_APPROVED), []), world;
    }
    var saga := new SagaRollback<SwapWorld<C, D>>([]);
    AddSwapSteps(t, saga);
    StepNamesDistinct(t);
    CompletedSwap(t, outgoing, incoming);
    var ok, results;
    ok, results, world := saga.Run(world);
    if ok {
      CompletedSwapReports(t, outgoing, incoming);
      return HotSwapReport(true, world.checkpoint, world.migrated, None, results), world;
    }
    var error := FindError(results);
    FailedSwapTells(t, outgoing, incoming, world, results);
    report := HotSwapReport(false, world.checkpoint, world.migrated, error, results);
  }

  method FindError(results: seq<StepResult>) returns (error: Option<string>)
    ensures error == FirstError(results)
  {
    var k := 0;
    while k < |results| && results[k].success
      invariant 0 <= k <= |results|
      invariant FirstError(results[k..]) == FirstError(results)
    {
      k := k + 1;
    }
    error := if k < |results| then results[k].error else Some("unknown saga failure");
  }

  method AddSwapSteps<C, D>(t: Setting<C, D>, saga: SagaRollback<SwapWorld<C, D>>)
    requires saga.steps == []
    modifies saga
    ensures saga.steps == SwapSteps(t)
  {
    saga.AddStep(SagaStep("capture", w => Capture(t, w), Some(w => ResumeOutgoing(t, w))));
    saga.AddStep(SagaStep("deactivate_outgoing", w => DeactivateOutgoing(t, w), Some(w => ReactivateOutgoing(t, w))));
    saga.AddStep(SagaStep("migrate_state", w => MigrateState(t, w), None));
    saga.AddStep(SagaStep("resume_incoming", w => ResumeIncoming(t, w), Some(w => DeactivateIncoming(t, w))));
    if t.observe.Some? {
      saga.AddStep(SagaStep("observe_window", w => ObserveWindow(t, w), None));
    }
  }
}
