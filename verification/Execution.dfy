/** Running a submitted job: the poll loop and the events it leaves in the session store. */
module Execution {
  import opened Models
  import opened Reals
  import opened Polling

  datatype ExecutionStatus = Created | Queued | Running | Completed | Failed | TimedOut | Cancelled

  predicate Terminal(s: ExecutionStatus) {
    s in {Completed, Failed, TimedOut, Cancelled}
  }

  datatype EventKind = TaskSubmitted | TaskRunning | TaskCompleted | TaskFailed | TaskCancelled

  /** A session event with the status the handle had when it was appended. */
  datatype TaskEvent = TaskEvent(kind: EventKind, status: ExecutionStatus)

  /** An awaited call answers, raises, or is interrupted by the cancellation of the surrounding task. */
  datatype Answer<T> = Answers(value: T) | Errs | Interrupted

  /** The executor: what it answers to each call is a parameter. */
  datatype Executor = Executor(
    submit: Answer<ExecutionStatus>,
    poll: nat -> Answer<ExecutionStatus>,
    sleepInterrupted: nat -> bool,
    awaitResult: Answer<string>,
    cancelErrs: bool)

  class JobHandle {
    var status: ExecutionStatus
    var ended: bool

    constructor (status: ExecutionStatus)
      ensures this.status == status && !ended
    {
      this.status, ended := status, false;
    }
  }

  // ------------------------------------------------------------ specification

  predicate Ongoing(a: Answer<ExecutionStatus>) {
    a.Answers? && !Terminal(a.value)
  }

  /** How the poll loop is left; `Unfinished` is a loop that still went on when it was last looked at. */
  datatype PollExit = Final(status: ExecutionStatus) | PollErrs | PollInterrupted | Unfinished

  /** The sleeps are a beginning of the strategy's schedule; without a strategy there is no waiting. */
  ghost predicate Slept(strategy: Option<Strategy>, sleeps: seq<real>) {
    match strategy
    case None => forall i :: 0 <= i < |sleeps| ==> sleeps[i] == 0.0
    case Some(s) => sleeps == s.Planned(|sleeps|)
  }

  ghost predicate TotalUsedUp(strategy: Option<Strategy>, sleeps: seq<real>) {
    strategy.Some? && Sum(sleeps) >= strategy.value.maxTotalWait
  }

  ghost predicate StillPolling(x: Executor, strategy: Option<Strategy>, sleeps: seq<real>) {
    && Slept(strategy, sleeps)
    && forall k: nat :: k < |sleeps| ==> Ongoing(x.poll(k)) && !x.sleepInterrupted(k)
  }

  /** Sleeps between polls that all found the job unfinished, up to the one that ended the loop. */
  ghost predicate PollRun(x: Executor, strategy: Option<Strategy>, sleeps: seq<real>, exit: PollExit) {
    var last := x.poll(|sleeps|);
    && StillPolling(x, strategy, sleeps)
    && match exit
       case Final(s) =>
         if Terminal(s) && last == Answers(s) then true
         else s == TimedOut && Ongoing(last) && TotalUsedUp(strategy, sleeps)
       case PollErrs => last == Errs
       case PollInterrupted =>
         last == Interrupted
         || (Ongoing(last) && x.sleepInterrupted(|sleeps|) && !TotalUsedUp(strategy, sleeps))
       case Unfinished => strategy.None?
  }

  /** One poll before each sleep and, once the loop is left, one after the last. */
  ghost function Polls(sleeps: seq<real>, exit: PollExit): nat {
    if exit.Unfinished? then |sleeps| else |sleeps| + 1
  }

  ghost predicate SawRunning(x: Executor, polls: nat) {
    exists k: nat :: k < polls && x.poll(k) == Answers(Running)
  }

  ghost function RunningEvents(x: Executor, polls: nat): seq<TaskEvent> {
    if SawRunning(x, polls) then [TaskEvent(TaskRunning, Running)] else []
  }

  /** What poll number k adds: the running event, if it is the first to report the job running. */
  ghost function NewRunning(x: Executor, k: nat): seq<TaskEvent> {
    if x.poll(k) == Answers(Running) && !SawRunning(x, k) then [TaskEvent(TaskRunning, Running)] else []
  }

  lemma RunningOneMore(x: Executor, k: nat)
    ensures RunningEvents(x, k + 1) == RunningEvents(x, k) + NewRunning(x, k)
  {
  }

  /** What the end of a run appends. */
  function Ending(x: Executor, exit: PollExit): seq<TaskEvent> {
    match exit
    case Final(s) =>
      if s == Cancelled then [TaskEvent(TaskCancelled, s)]
      else if s == Failed || s == TimedOut then [TaskEvent(TaskFailed, s)]
      else if x.awaitResult.Answers? then [TaskEvent(TaskCompleted, Completed)]
      else if x.awaitResult.Errs? then [TaskEvent(TaskFailed, Failed)]
      else CancelEnding(x)
    case PollErrs => [TaskEvent(TaskFailed, Failed)]
    case PollInterrupted => CancelEnding(x)
    case Unfinished => []
  }

  function CancelEnding(x: Executor): seq<TaskEvent> {
    if x.cancelErrs then [] else [TaskEvent(TaskCancelled, Cancelled)]
  }

  predicate RunInterrupted(x: Executor, exit: PollExit) {
    exit.PollInterrupted? || (exit == Final(Completed) && x.awaitResult == Interrupted)
  }

  /** All events of a run that was submitted. */
  ghost function RunEvents(x: Executor, polls: nat, exit: PollExit): seq<TaskEvent>
    requires x.submit.Answers?
  {
    [TaskEvent(TaskSubmitted, x.submit.value)] + RunningEvents(x, polls) + Ending(x, exit)
  }

  /** The handle agrees with the terminal event; an artifact comes of completed jobs only. */
  ghost predicate Ended(x: Executor, exit: PollExit, status: ExecutionStatus, ended: bool,
                        artifact: Option<string>, raised: bool) {
    && (Ending(x, exit) != [] ==> ended && status == Ending(x, exit)[0].status)
    && (artifact.Some? <==> exit == Final(Completed) && x.awaitResult.Answers?)
    && (artifact.Some? ==> artifact.value == x.awaitResult.value)
    && (raised <==> RunInterrupted(x, exit) || exit.PollErrs? || (exit == Final(Completed) && x.awaitResult.Errs?))
  }

  predicate IsTerminalEvent(e: TaskEvent) {
    e.kind in {TaskCompleted, TaskFailed, TaskCancelled}
  }

  // --------------------------------------------------------------- properties

  /**
   * A run logs its submission first, then one running event if some poll reported the job running, then
   * exactly one terminal event; the terminal event is missing exactly when the run is unfinished, or was
   * interrupted and the cancel hook raised. Its kind says how the run ended: completed exactly with an
   * artifact, cancelled exactly when the job or the run was, and failed otherwise.
   */
  lemma EventsOfRun(x: Executor, strategy: Option<Strategy>, sleeps: seq<real>, exit: PollExit)
    requires x.submit.Answers? && PollRun(x, strategy, sleeps, exit)
    ensures var log := RunEvents(x, Polls(sleeps, exit), exit);
            && log[0] == TaskEvent(TaskSubmitted, x.submit.value)
            && (forall i :: 1 <= i < |log| ==> log[i].kind != TaskSubmitted)
            && (forall i :: 0 <= i < |log| && log[i].kind == TaskRunning ==> i == 1 && log[i].status == Running)
            && (SawRunning(x, Polls(sleeps, exit)) <==> |log| > 1 && log[1].kind == TaskRunning)
            && (forall i :: 0 <= i < |log| && IsTerminalEvent(log[i]) ==> i == |log| - 1 && Terminal(log[i].status))
            && (IsTerminalEvent(log[|log| - 1]) <==> !exit.Unfinished? && !(RunInterrupted(x, exit) && x.cancelErrs))
            && (IsTerminalEvent(log[|log| - 1]) ==> Tells(log[|log| - 1], x, exit))
  {
    var running, ending := RunningEvents(x, Polls(sleeps, exit)), Ending(x, exit);
    assert |running| <= 1 && |ending| <= 1;
    assert forall i :: 0 <= i < |ending| ==> IsTerminalEvent(ending[i]) && Terminal(ending[i].status);
  }

  /** The event that ends a run, with the status the handle ends with. */
  predicate Tells(e: TaskEvent, x: Executor, exit: PollExit) {
    && (e.kind == TaskCompleted <==> exit == Final(Completed) && x.awaitResult.Answers?)
    && (e.kind == TaskCancelled <==> exit == Final(Cancelled) || RunInterrupted(x, exit))
    && (e.kind == TaskCompleted ==> e.status == Completed)
    && (e.kind == TaskCancelled ==> e.status == Cancelled)
    && (e.kind == TaskFailed ==> e.status == if exit == Final(TimedOut) then TimedOut else Failed)
  }

  /** The executor's answers determine the sleeps and the way out of the loop. */
  lemma PollRunUnique(x: Executor, strategy: Option<Strategy>,
                      s: seq<real>, e: PollExit, t: seq<real>, f: PollExit)
    requires strategy.Some? ==> strategy.value.Valid()
    requires PollRun(x, strategy, s, e) && PollRun(x, strategy, t, f)
    requires !e.Unfinished? && !f.Unfinished?
    ensures s == t && e == f
  {
    if |s| < |t| {
      NotLonger(x, strategy, s, e, t, f);
    } else if |t| < |s| {
      NotLonger(x, strategy, t, f, s, e);
    }
    assert strategy.None? ==> forall i :: 0 <= i < |s| ==> s[i] == t[i];
  }

  lemma NotLonger(x: Executor, strategy: Option<Strategy>,
                  s: seq<real>, e: PollExit, t: seq<real>, f: PollExit)
    requires PollRun(x, strategy, s, e) && PollRun(x, strategy, t, f) && !e.Unfinished?
    ensures |t| <= |s|
  {
    if |s| < |t| {
      assert Ongoing(x.poll(|s|)) && !x.sleepInterrupted(|s|);
      strategy.value.Exhausted(|s|, |t|);
    }
  }

  /** No poll and no sleep before this number ends the loop. */
  ghost predicate GoesOnFor(x: Executor, n: nat) {
    forall k: nat :: k < n ==> Ongoing(x.poll(k)) && !x.sleepInterrupted(k)
  }

  /**
   * With a strategy, a run sleeps no longer than max_total_wait, in at most
   * max_total_wait / min(base_delay, max_delay) sleeps, rounded up.
   */
  lemma SleepsBounded(x: Executor, strategy: Strategy, sleeps: seq<real>, exit: PollExit)
    requires strategy.Valid() && PollRun(x, Some(strategy), sleeps, exit)
    ensures Sum(sleeps) <= strategy.maxTotalWait
    ensures strategy.Shortest() > 0.0 && |sleeps| <= Ceiling(strategy.maxTotalWait / strategy.Shortest())
  {
    strategy.PlannedSum(|sleeps|);
    strategy.AttemptsBound(|sleeps|);
  }

  ghost predicate CanSleep(s: Strategy, sleeps: seq<real>, delay: real) {
    && s.maxTotalWait - Sum(sleeps) > 0.0
    && delay == Min(s.Capped(|sleeps| + 1), s.maxTotalWait - Sum(sleeps))
  }

  lemma PlanGoesOn(s: Strategy, sleeps: seq<real>, delay: real)
    requires sleeps == s.Planned(|sleeps|) && CanSleep(s, sleeps, delay)
    ensures Slept(Some(s), sleeps + [delay])
  {
    s.PlanGoesOn(|sleeps| + 1, sleeps, s.Capped(|sleeps| + 1), s.maxTotalWait - Sum(sleeps));
    assert |sleeps + [delay]| == |sleeps| + 1;
  }

  lemma PollingGoesOn(x: Executor, strategy: Option<Strategy>, sleeps: seq<real>, delay: real)
    requires StillPolling(x, strategy, sleeps)
    requires Ongoing(x.poll(|sleeps|)) && !x.sleepInterrupted(|sleeps|)
    requires strategy.None? ==> delay == 0.0
    requires strategy.Some? ==> CanSleep(strategy.value, sleeps, delay)
    ensures StillPolling(x, strategy, sleeps + [delay])
  {
    if strategy.Some? { PlanGoesOn(strategy.value, sleeps, delay); }
  }

  // --------------------------------------------------------------- the service

  class ExecutionLifecycleService {
    const executor: Executor
    const strategy: Option<Strategy>
    /** The session store this service appends to. */
    var store: seq<TaskEvent>

    ghost predicate Valid() reads this {
      strategy.Some? ==> strategy.value.Valid()
    }

    constructor (executor: Executor, strategy: Option<Strategy>)
      requires strategy.Some? ==> strategy.value.Valid()
      ensures Valid() && this.executor == executor && this.strategy == strategy && store == []
    {
      this.executor, this.strategy, store := executor, strategy, [];
    }

    method AppendEvent(kind: EventKind, handle: JobHandle) returns (event: TaskEvent)
      modifies this`store
      ensures event == TaskEvent(kind, handle.status) && store == old(store) + [event]
    {
      event := TaskEvent(kind, handle.status);
      store := store + [event];
    }

    method SyncHandle(handle: JobHandle, status: ExecutionStatus)
      modifies handle
      ensures handle.status == status && handle.ended == (old(handle.ended) || Terminal(status))
    {
      handle.status := status;
      if Terminal(status) { handle.ended := true; }
    }

    /** The next delay, or none when the total is used up. */
    method NextDelay(attempt: nat, totalWait: real) returns (delay: Option<real>)
      requires Valid() && attempt > 0
      ensures strategy.None? ==> delay == Some(0.0)
      ensures strategy.Some? ==> var remaining := strategy.value.maxTotalWait - totalWait;
        delay == if remaining <= 0.0 then None else Some(Min(strategy.value.Capped(attempt), remaining))
    {
      if strategy.None? { return Some(0.0); }
      var remaining := strategy.value.maxTotalWait - totalWait;
      if remaining <= 0.0 { return None; }
      var next := strategy.value.NextDelay(attempt);
      delay := Some(Min(next.value, remaining));
    }

    /** Whether a poll with this number would be past every sleep the strategy allows. */
    ghost function SleepsLeft(sleeps: nat, limit: nat): int {
      (if strategy.Some? && strategy.value.Shortest() != 0.0
       then Ceiling(strategy.value.maxTotalWait / strategy.value.Shortest())
       else limit) - sleeps
    }

    /**
     * Polls until the job ends or the total wait is used up. Without a strategy nothing bounds the
     * loop: then it is followed for `limit` sleeps and, if it still goes on, left unfinished.
     */
    method PollUntilTerminal(handle: JobHandle, sessionEvents: seq<TaskEvent>, limit: nat)
      returns (exit: PollExit, sleeps: seq<real>, events: seq<TaskEvent>)
      requires Valid()
      requires forall e :: e in sessionEvents ==> e.kind != TaskRunning
      modifies this`store, handle
      ensures PollRun(executor, strategy, sleeps, exit)
      ensures exit.Unfinished? ==> |sleeps| == limit
      ensures strategy.None? ==> (exit.Unfinished? <==> GoesOnFor(executor, limit))
      ensures events == sessionEvents + RunningEvents(executor, Polls(sleeps, exit))
      ensures store == old(store) + RunningEvents(executor, Polls(sleeps, exit))
    {
      sleeps, events := [], sessionEvents;
      var totalWait := 0.0;
      while true
        invariant totalWait == Sum(sleeps) && StillPolling(executor, strategy, sleeps)
        invariant events == sessionEvents + RunningEvents(executor, |sleeps|)
        invariant store == old(store) + RunningEvents(executor, |sleeps|)
        invariant strategy.None? ==> |sleeps| <= limit
        decreases SleepsLeft(|sleeps|, limit)
      {
        if strategy.None? && |sleeps| == limit { return Unfinished, sleeps, events; }
        var out;
        out, events := PollOnce(handle, events, |sleeps|, sleeps);
        RunningOneMore(executor, |sleeps|);
        if out.Some? { return out.value, sleeps, events; }
        out, sleeps, totalWait := SleepOnce(sleeps, totalWait);
        if out.Some? { return out.value, sleeps, events; }
        StillWithin(|sleeps|, sleeps);
      }
    }

    /** Sleeps once more, unless the total is used up or the sleep is interrupted. */
    method SleepOnce(sleeps0: seq<real>, totalWait0: real)
      returns (out: Option<PollExit>, sleeps: seq<real>, totalWait: real)
      requires Valid() && totalWait0 == Sum(sleeps0)
      requires StillPolling(executor, strategy, sleeps0) && Ongoing(executor.poll(|sleeps0|))
      ensures out.Some? ==>
                sleeps == sleeps0 && PollRun(executor, strategy, sleeps, out.value) && !out.value.Unfinished?
      ensures out.None? ==> |sleeps| == |sleeps0| + 1 && totalWait == Sum(sleeps)
      ensures out.None? ==> StillPolling(executor, strategy, sleeps)
    {
      out, sleeps, totalWait := None, sleeps0, totalWait0;
      var delay := NextDelay(|sleeps| + 1, totalWait);
      if delay.None? { return Some(Final(TimedOut)), sleeps, totalWait; }
      if executor.sleepInterrupted(|sleeps|) { return Some(PollInterrupted), sleeps, totalWait; }
      PollingGoesOn(executor, strategy, sleeps, delay.value);
      SumOneMore(sleeps, delay.value);
      sleeps, totalWait := sleeps + [delay.value], totalWait + delay.value;
    }

    lemma StillWithin(n: nat, sleeps: seq<real>)
      requires Valid() && |sleeps| == n && Slept(strategy, sleeps)
      ensures strategy.Some? ==> SleepsLeft(n, 0) >= 0 && strategy.value.Shortest() > 0.0
    {
      if strategy.Some? { strategy.value.AttemptsBound(n); }
    }

    /** Poll number k; the first poll that reports the job running is noted, later ones are not. */
    method PollOnce(handle: JobHandle, events0: seq<TaskEvent>, k: nat, ghost sleeps: seq<real>)
      returns (out: Option<PollExit>, events: seq<TaskEvent>)
      requires StillPolling(executor, strategy, sleeps) && k == |sleeps|
      requires SawRunning(executor, k) <==> exists e :: e in events0 && e.kind == TaskRunning
      modifies this`store, handle
      ensures out.Some? ==> PollRun(executor, strategy, sleeps, out.value) && !out.value.Unfinished?
      ensures out.None? ==> Ongoing(executor.poll(k))
      ensures events == events0 + NewRunning(executor, k) && store == old(store) + NewRunning(executor, k)
    {
      events := events0;
      var answer := executor.poll(k);
      if answer.Interrupted? { return Some(PollInterrupted), events; }
      if answer.Errs? { return Some(PollErrs), events; }
      SyncHandle(handle, answer.value);
      if answer.value == Running && !(exists e :: e in events && e.kind == TaskRunning) {
        var event := AppendEvent(TaskRunning, handle);
        events := events + [event];
      }
      out := if Terminal(answer.value) then Some(Final(answer.value)) else None;
    }

    /** Asks the executor to cancel; the handle and the store are told only if it does. */
    method Cancel(handle: JobHandle)
      modifies this`store, handle
      ensures store == old(store) + CancelEnding(executor)
      ensures !executor.cancelErrs ==> handle.status == Cancelled && handle.ended
      ensures executor.cancelErrs ==> handle.status == old(handle.status)
    {
      if executor.cancelErrs { return; }
      SyncHandle(handle, Cancelled);
      var event := AppendEvent(TaskCancelled, handle);
    }

    /** Submits, polls and ends the job; `limit` as for polling. */
    method Run(limit: nat) returns (result: RunResult, ghost sleeps: seq<real>, ghost exit: PollExit)
      requires Valid()
      modifies this`store
      ensures !executor.submit.Answers? ==> result.Unsubmitted? && store == old(store)
      ensures executor.submit.Answers? ==>
        && PollRun(executor, strategy, sleeps, exit)
        && store == old(store) + RunEvents(executor, Polls(sleeps, exit), exit)
        && (exit.Unfinished? ==> |sleeps| == limit)
        && result.Ran? && fresh(result.handle)
        && Ended(executor, exit, result.handle.status, result.handle.ended, result.artifact, result.raised)
    {
      sleeps, exit := [], PollErrs;
      if !executor.submit.Answers? { return Unsubmitted, sleeps, exit; }
      var handle := new JobHandle(executor.submit.value);
      var submitted := AppendEvent(TaskSubmitted, handle);
      var out, slept, events := PollUntilTerminal(handle, [submitted], limit);
      sleeps, exit := slept, out;
      var artifact, raised := End(handle, out);
      result := Ran(handle, artifact, raised);
    }

    /** Ends a run: the event of its outcome, the artifact, or the exception that goes on. */
    method End(handle: JobHandle, exit: PollExit) returns (artifact: Option<string>, raised: bool)
      requires exit.Final? ==> Terminal(exit.status)
      modifies this`store, handle
      ensures store == old(store) + Ending(executor, exit)
      ensures Ended(executor, exit, handle.status, handle.ended, artifact, raised)
    {
      artifact, raised := None, false;
      if exit.Unfinished? { return; }
      if exit.PollInterrupted? { Cancel(handle); return None, true; }
      if exit.PollErrs? { Conclude(handle, Failed, TaskFailed); return None, true; }
      if exit.status == Cancelled { Conclude(handle, Cancelled, TaskCancelled); return; }
      if exit.status in {Failed, TimedOut} { Conclude(handle, exit.status, TaskFailed); return; }
      match executor.awaitResult {
        case Answers(a) => Conclude(handle, Completed, TaskCompleted); artifact := Some(a);
        case Errs => Conclude(handle, Failed, TaskFailed); raised := true;
        case Interrupted => Cancel(handle); raised := true;
      }
    }

    method Conclude(handle: JobHandle, status: ExecutionStatus, kind: EventKind)
      requires Terminal(status)
      modifies this`store, handle
      ensures store == old(store) + [TaskEvent(kind, status)]
      ensures handle.status == status && handle.ended
    {
      SyncHandle(handle, status);
      var event := AppendEvent(kind, handle);
    }
  }

  /** What a run gives back: the handle, the artifact of a completed job, and whether an exception went on. */
  datatype RunResult = Unsubmitted | Ran(handle: JobHandle, artifact: Option<string>, raised: bool)
}
