/** Sagas: forward steps in order and, when one raises, compensations in reverse. */
module Saga {
  import opened Models

  /** What an action does to the world, whether it returns or raises partway. */
  datatype Outcome<S> = Done(world: S, output: string) | Raised(world: S, error: string)

  datatype SagaStep<!S> = SagaStep(name: string, forward: S -> Outcome<S>, compensate: Option<S -> Outcome<S>>)

  datatype StepResult = StepResult(
    name: string, success: bool, output: Option<string>, error: Option<string>, compensated: bool)

  const COMPENSATION_FAILED := "; compensation_failed"

  // ---------------------------------------------------------------- forwards

  /** The world after the first n steps have been tried. */
  ghost function After<S>(steps: seq<SagaStep<S>>, s: S, n: nat): S
    requires n <= |steps|
  {
    if n == 0 then s else steps[n - 1].forward(After(steps, s, n - 1)).world
  }

  ghost predicate Completes<S>(steps: seq<SagaStep<S>>, s: S, n: nat)
    requires n <= |steps|
  {
    n == 0 || (Completes(steps, s, n - 1) && steps[n - 1].forward(After(steps, s, n - 1)).Done?)
  }

  /** The first n steps complete and the next one raises. */
  ghost predicate FailsAt<S>(steps: seq<SagaStep<S>>, s: S, n: nat) {
    n < |steps| && Completes(steps, s, n) && steps[n].forward(After(steps, s, n)).Raised?
  }

  lemma {:induction false} FailedIncomplete<S>(steps: seq<SagaStep<S>>, s: S, n: nat, m: nat)
    requires FailsAt(steps, s, n) && n < m <= |steps|
    ensures !Completes(steps, s, m)
    decreases m
  {
    if n >= m - 1 {
    } else {
      FailedIncomplete(steps, s, n, m - 1);
    }
  }

  function ResultOf<S>(name: string, o: Outcome<S>): StepResult {
    match o
    case Done(_, output) => StepResult(name, true, Some(output), None, false)
    case Raised(_, error) => StepResult(name, false, None, Some(error), false)
  }

  /** The results of the first n steps, before anything is compensated. */
  ghost function Tried<S>(steps: seq<SagaStep<S>>, s: S, n: nat): (r: seq<StepResult>)
    requires n <= |steps|
    ensures |r| == n
  {
    if n == 0 then []
    else Tried(steps, s, n - 1) + [ResultOf(steps[n - 1].name, steps[n - 1].forward(After(steps, s, n - 1)))]
  }

  /** Completed steps have successful results, without an error, under their own names. */
  lemma {:induction false} CompletedSucceeded<S>(steps: seq<SagaStep<S>>, s: S, n: nat, i: nat)
    requires i < n <= |steps| && Completes(steps, s, n)
    ensures Tried(steps, s, n)[i].success && Tried(steps, s, n)[i].error == None
    ensures Tried(steps, s, n)[i].name == steps[i].name
  {
    if i >= n - 1 {
    } else {
      CompletedSucceeded(steps, s, n - 1, i);
    }
  }

  // --------------------------------------------------------------- backwards

  /** The world after a step was compensated: a compensation that raises is passed over. */
  ghost function Reverted<S>(step: SagaStep<S>, s: S): S {
    if step.compensate.None? then s else step.compensate.value(s).world
  }

  /** The world after compensating steps hi - 1 down to lo, last completed first. */
  ghost function Undone<S>(steps: seq<SagaStep<S>>, lo: nat, hi: nat, s: S): S
    requires hi <= |steps|
    decreases hi
  {
    if hi <= lo then s else Undone(steps, lo, hi - 1, Reverted(steps[hi - 1], s))
  }

  /** On the world where it ran, the compensation of a step takes its effect back. */
  ghost predicate TakesBack<S>(step: SagaStep<S>, s: S) {
    Reverted(step, step.forward(s).world) == s
  }

  ghost predicate AllTakenBack<S>(steps: seq<SagaStep<S>>, s: S, n: nat)
    requires n <= |steps|
  {
    n == 0 || (AllTakenBack(steps, s, n - 1) && TakesBack(steps[n - 1], After(steps, s, n - 1)))
  }

  /**
   * A failed saga restores the initial world when every completed step is taken back by its
   * compensation and the failing step left no trace.
   */
  lemma FailedSagaRestores<S>(steps: seq<SagaStep<S>>, s: S, n: nat)
    requires FailsAt(steps, s, n)
    requires AllTakenBack(steps, s, n)
    requires After(steps, s, n + 1) == After(steps, s, n)
    ensures Undone(steps, 0, n, After(steps, s, n + 1)) == s
  {
    PrefixRestores(steps, s, n);
  }

  lemma {:induction false} PrefixRestores<S>(steps: seq<SagaStep<S>>, s: S, n: nat)
    requires n <= |steps|
    requires AllTakenBack(steps, s, n)
    ensures Undone(steps, 0, n, After(steps, s, n)) == s
  {
    if n == 0 {
    } else {
      PrefixRestores(steps, s, n - 1);
    }
  }

  /** Compensating the first n steps, last first, from world s on, no compensation interferes with `f`. */
  ghost predicate Spared<S>(steps: seq<SagaStep<S>>, n: nat, f: S -> S, s: S)
    requires n <= |steps|
  {
    n == 0 ||
    (var t := Reverted(steps[n - 1], s);
     Reverted(steps[n - 1], f(s)) == f(t) && Spared(steps, n - 1, f, t))
  }

  lemma {:induction false} SparedStays<S>(steps: seq<SagaStep<S>>, n: nat, f: S -> S, s: S)
    requires n <= |steps| && Spared(steps, n, f, s)
    ensures Undone(steps, 0, n, f(s)) == f(Undone(steps, 0, n, s))
    decreases n
  {
    if n == 0 {
    } else {
      SparedStays(steps, n - 1, f, Reverted(steps[n - 1], s));
    }
  }

  /**
   * A raising step is never compensated: what it did before it raised, if no compensation interferes, is
   * exactly what the failed saga leaves behind.
   */
  lemma RaisingStepStays<S>(steps: seq<SagaStep<S>>, s: S, n: nat, f: S -> S)
    requires FailsAt(steps, s, n) && AllTakenBack(steps, s, n)
    requires After(steps, s, n + 1) == f(After(steps, s, n)) && Spared(steps, n, f, After(steps, s, n))
    ensures Undone(steps, 0, n, After(steps, s, n + 1)) == f(s)
  {
    SparedStays(steps, n, f, After(steps, s, n));
    PrefixRestores(steps, s, n);
  }

  // ------------------------------------------------------------------- flags

  /** Position of the first successful result with this name. */
  ghost predicate FirstNamed(results: seq<StepResult>, name: string, k: nat) {
    && k < |results| && results[k].name == name && results[k].success
    && (forall j :: 0 <= j < k ==> !(results[j].name == name && results[j].success))
  }

  function Flagged(r: StepResult, ok: bool): StepResult {
    if ok then r.(compensated := true)
    else r.(compensated := false,
            error := Some((if r.error.Some? then r.error.value else "") + COMPENSATION_FAILED))
  }

  /** The result of a step once its compensation was tried on world s. */
  ghost function OwnFlag<S>(step: SagaStep<S>, s: S, r: StepResult): StepResult {
    if step.compensate.None? then r else Flagged(r, step.compensate.value(s).Done?)
  }

  /** Compensating the first n steps, last first, flags the result of each. */
  ghost function Marked<S>(steps: seq<SagaStep<S>>, n: nat, s: S, results: seq<StepResult>): (r: seq<StepResult>)
    requires n <= |steps| && n <= |results|
    ensures |r| == |results|
  {
    if n == 0 then results
    else
      var step := steps[n - 1];
      Marked(steps, n - 1, Reverted(step, s), results[n - 1 := OwnFlag(step, s, results[n - 1])])
  }

  /** What a result tells once the compensation of its step was tried on world s. */
  ghost predicate FlaggedFor<S>(step: SagaStep<S>, s: S, before: StepResult, after: StepResult) {
    && after.name == before.name && after.success == before.success && after.output == before.output
    && (step.compensate.None? ==> after == before)
    && (step.compensate.Some? ==> after.compensated == step.compensate.value(s).Done?)
    && (step.compensate.Some? && step.compensate.value(s).Done? ==> after.error == before.error)
    && (step.compensate.Some? && step.compensate.value(s).Raised? ==>
          after.error == Some((if before.error.Some? then before.error.value else "") + "; compensation_failed"))
  }

  /** So each completed step reports on its own compensation, tried on the world it found. */
  lemma {:induction false} MarkedExactly<S>(steps: seq<SagaStep<S>>, n: nat, s: S, results: seq<StepResult>, i: nat)
    requires n <= |steps| && n <= |results| && i < |results|
    ensures i >= n ==> Marked(steps, n, s, results)[i] == results[i]
    ensures i < n ==> FlaggedFor(steps[i], Undone(steps, i + 1, n, s), results[i], Marked(steps, n, s, results)[i])
    decreases n
  {
    if n == 0 {
    } else {
      var step := steps[n - 1];
      MarkedExactly(steps, n - 1, Reverted(step, s), results[n - 1 := OwnFlag(step, s, results[n - 1])], i);
    }
  }

  ghost predicate DistinctNames<S>(steps: seq<SagaStep<S>>) {
    forall i, j :: 0 <= i < j < |steps| ==> steps[i].name != steps[j].name
  }

  /** The first n results are successes under the names of their steps. */
  ghost predicate Named<S>(steps: seq<SagaStep<S>>, results: seq<StepResult>, n: nat) {
    && n <= |steps| && n <= |results|
    && forall i :: 0 <= i < n ==> results[i].name == steps[i].name && results[i].success
  }

  lemma TriedNamed<S>(steps: seq<SagaStep<S>>, s: S, n: nat)
    requires FailsAt(steps, s, n)
    ensures Named(steps, Tried(steps, s, n + 1), n)
  {
    forall i | 0 <= i < n
      ensures Tried(steps, s, n + 1)[i].name == steps[i].name && Tried(steps, s, n + 1)[i].success
    {
      CompletedSucceeded(steps, s, n, i);
    }
  }

  // ---------------------------------------------------------------- the saga

  class SagaRollback<S> {
    var steps: seq<SagaStep<S>>
    var results: seq<StepResult>

    constructor (steps: seq<SagaStep<S>>)
      ensures this.steps == steps && results == []
    {
      this.steps, results := steps, [];
    }

    method AddStep(step: SagaStep<S>)
      modifies this`steps
      ensures steps == old(steps) + [step]
    {
      steps := steps + [step];
    }

    /**
     * Runs the saga. It completes exactly when no step raises; otherwise exactly the completed
     * prefix is compensated, in reverse order, starting from the world the failing step left.
     */
    method Run(world0: S) returns (ok: bool, out: seq<StepResult>, world: S)
      modifies this`results
      ensures out == results
      ensures ok <==> Completes(steps, world0, |steps|)
      ensures ok ==> world == After(steps, world0, |steps|) && out == Tried(steps, world0, |steps|)
      ensures !ok ==> out != [] && FailsAt(steps, world0, |out| - 1)
      ensures !ok ==> world == Undone(steps, 0, |out| - 1, After(steps, world0, |out|))
      ensures !ok && DistinctNames(steps) ==>
                out == Marked(steps, |out| - 1, After(steps, world0, |out|), Tried(steps, world0, |out|))
    {
      ok, world := Forwards(world0);
      if !ok { world := Compensate(world, |results| - 1, world0); }
      out := results;
    }

    /** Tries the steps in order up to the first that raises. */
    method Forwards(world0: S) returns (ok: bool, world: S)
      modifies this`results
      ensures ok <==> Completes(steps, world0, |steps|)
      ensures |results| <= |steps| && results == Tried(steps, world0, |results|)
      ensures world == After(steps, world0, |results|)
      ensures ok ==> |results| == |steps|
      ensures !ok ==> results != [] && FailsAt(steps, world0, |results| - 1)
    {
      results := [];
      world := world0;
      ok := true;
      while |results| < |steps| && ok
        invariant |results| <= |steps| && results == Tried(steps, world0, |results|)
        invariant ok ==> Completes(steps, world0, |results|)
        invariant !ok ==> results != [] && FailsAt(steps, world0, |results| - 1)
        invariant world == After(steps, world0, |results|)
        decreases |steps| - |results|
      {
        var step := steps[|results|];
        var outcome := step.forward(world);
        results := results + [ResultOf(step.name, outcome)];
        world := outcome.world;
        ok := outcome.Done?;
      }
      if !ok { FailedIncomplete(steps, world0, |results| - 1, |steps|); }
    }

    /** Compensates the first n steps, last first. */
    method Compensate(world0: S, n: nat, ghost start: S) returns (world: S)
      requires FailsAt(steps, start, n) && results == Tried(steps, start, n + 1)
      modifies this`results
      ensures world == Undone(steps, 0, n, world0)
      ensures |results| == n + 1
      ensures DistinctNames(steps) ==> results == Marked(steps, n, world0, old(results))
    {
      TriedNamed(steps, start, n);
      world := world0;
      var k: nat := n;
      while k > 0
        invariant 0 <= k <= n && |results| == n + 1
        invariant Undone(steps, 0, k, world) == Undone(steps, 0, n, world0)
        invariant Named(steps, results, n)
        invariant DistinctNames(steps) ==> Marked(steps, k, world, results) == Marked(steps, n, world0, old(results))
      {
        k := k - 1;
        var step := steps[k];
        if step.compensate.Some? {
          var outcome := step.compensate.value(world);
          var j := Flag(step.name, outcome.Done?, k);
          assert DistinctNames(steps) ==> j == k;
          world := outcome.world;
        } else {
          assert results[k := results[k]] == results;
        }
      }
    }

    /** Flags the first successful result of that name. */
    method Flag(name: string, done: bool, ghost k: nat) returns (j: nat)
      requires k < |results| && results[k].name == name && results[k].success
      modifies this`results
      ensures FirstNamed(old(results), name, j) && j <= k
      ensures results == old(results)[j := Flagged(old(results)[j], done)]
    {
      j := 0;
      while !(results[j].name == name && results[j].success)
        invariant 0 <= j <= k
        invariant forall i :: 0 <= i < j ==> !(results[i].name == name && results[i].success)
        decreases k - j
      {
        j := j + 1;
      }
      results := results[j := Flagged(results[j], done)];
    }
  }
}
