/** Fibonacci back-off with a cap on each delay and a cap on the total wait, over the reals. */
module Polling {
  import opened Reals

  datatype Checked<T> = Value(value: T) | ValueError

  ghost function Fib(n: nat): (f: nat)
    ensures f >= 1
  {
    if n <= 2 then 1 else Fib(n - 1) + Fib(n - 2)
  }

  function Min(a: real, b: real): real {
    if b < a then b else a
  }

  // -------------------------------------------------------------- arithmetic

  /** k times m, by repeated addition. */
  ghost function Times(k: nat, m: real): real {
    if k == 0 then 0.0 else Times(k - 1, m) + m
  }

  lemma {:induction false} TimesIsProduct(k: nat, m: real)
    ensures Times(k, m) == k as real * m
  {
    if k == 0 {
    } else {
      TimesIsProduct(k - 1, m);
      DistributeOne((k - 1) as real, m);
    }
  }

  lemma DistributeOne(a: real, m: real)
    ensures (a + 1.0) * m == a * m + m
  {
  }

  lemma {:induction false} TimesAtLeastOnce(k: nat, m: real)
    requires k >= 1 && m > 0.0
    ensures Times(k, m) >= m
  {
    if k == 1 {
    } else {
      TimesAtLeastOnce(k - 1, m);
    }
  }

  /** A product below t is a factor below the quotient, rounded up. */
  lemma CeilingAbove(k: nat, d: real, t: real)
    requires d > 0.0 && Times(k, d) < t
    ensures k + 1 <= Ceiling(t / d)
  {
    TimesIsProduct(k, d);
    var q := t / d;
    QuotientAbove(k as real, d, t, q);
    assert k as real < q;
  }

  // ------------------------------------------------- lists of delays, clipped

  ghost function Sum(delays: seq<real>): real {
    if delays == [] then 0.0 else Sum(delays[..|delays| - 1]) + delays[|delays| - 1]
  }

  lemma SumOneMore(delays: seq<real>, d: real)
    ensures Sum(delays + [d]) == Sum(delays) + d
  {
    assert (delays + [d])[..|delays|] == delays;
  }

  /** One more delay after those kept, cut short so that the total stays within a bound. */
  ghost function Keep(kept: seq<real>, d: real, total: real): seq<real> {
    if total - Sum(kept) <= 0.0 then kept else kept + [Min(d, total - Sum(kept))]
  }

  lemma KeepExtends(start: seq<real>, kept: seq<real>, d: real, total: real)
    requires start <= kept
    ensures start <= Keep(kept, d, total)
  {
  }

  lemma KeepLength(kept: seq<real>, d: real, total: real, n: nat)
    requires |kept| <= n && Sum(kept) <= total && (|kept| < n ==> Sum(kept) == total)
    ensures |Keep(kept, d, total)| <= n + 1
    ensures |Keep(kept, d, total)| < n + 1 ==> Sum(Keep(kept, d, total)) == total
  {
  }

  lemma KeepSum(kept: seq<real>, d: real, total: real, uncut: real)
    requires d > 0.0 && Sum(kept) == Min(uncut, total)
    ensures Sum(Keep(kept, d, total)) == Min(uncut + d, total)
  {
    SumOneMore(kept, Min(d, total - Sum(kept)));
  }

  /** A delay cut to what remains is what is kept. */
  lemma KeepsWhatRemains(kept: seq<real>, d: real, total: real, remaining: real)
    requires remaining == total - Sum(kept) && remaining > 0.0
    ensures Keep(kept, d, total) == kept + [Min(d, remaining)]
    ensures Sum(kept + [Min(d, remaining)]) == Sum(kept) + Min(d, remaining)
  {
    SumOneMore(kept, Min(d, remaining));
  }

  /** The last delay kept starts before the total is used up; until then every delay was at least m. */
  ghost predicate Paced(kept: seq<real>, m: real, total: real) {
    && (kept != [] ==> Times(|kept| - 1, m) < total)
    && (Sum(kept) < total ==> Times(|kept|, m) <= Sum(kept))
  }

  lemma KeepPaced(kept: seq<real>, d: real, m: real, total: real)
    requires Paced(kept, m, total) && m <= d && total > 0.0
    ensures Paced(Keep(kept, d, total), m, total)
  {
    SumOneMore(kept, Min(d, total - Sum(kept)));
  }

  lemma PacedBound(kept: seq<real>, m: real, total: real)
    requires Paced(kept, m, total) && m > 0.0 && total > 0.0
    ensures |kept| <= Ceiling(total / m)
  {
    CeilingAbove(if kept == [] then 0 else |kept| - 1, m, total);
  }

  // ---------------------------------------------- delays given by the attempt

  /** The delays of at most n attempts when the total is capped. */
  ghost function Kept(delay: nat -> real, total: real, n: nat): seq<real> {
    if n == 0 then [] else Keep(Kept(delay, total, n - 1), delay(n), total)
  }

  ghost function Uncut(delay: nat -> real, n: nat): real {
    if n == 0 then 0.0 else Uncut(delay, n - 1) + delay(n)
  }

  lemma {:induction false} KeptSum(delay: nat -> real, total: real, n: nat)
    requires total > 0.0 && forall k: nat :: 0.0 < delay(k)
    ensures Sum(Kept(delay, total, n)) == Min(Uncut(delay, n), total)
  {
    if n == 0 {
    } else {
      KeptSum(delay, total, n - 1);
      KeepSum(Kept(delay, total, n - 1), delay(n), total, Uncut(delay, n - 1));
    }
  }

  lemma {:induction false} KeptPrefix(delay: nat -> real, total: real, m: nat, n: nat)
    requires m <= n
    ensures Kept(delay, total, m) <= Kept(delay, total, n)
    decreases n
  {
    if m == n {
    } else {
      KeptPrefix(delay, total, m, n - 1);
      KeepExtends(Kept(delay, total, m), Kept(delay, total, n - 1), delay(n), total);
    }
  }

  lemma {:induction false} KeptLength(delay: nat -> real, total: real, n: nat)
    requires total > 0.0 && forall k: nat :: 0.0 < delay(k)
    ensures |Kept(delay, total, n)| <= n
    ensures |Kept(delay, total, n)| < n ==> Sum(Kept(delay, total, n)) == total
  {
    if n == 0 {
    } else {
      KeptLength(delay, total, n - 1);
      KeptSum(delay, total, n - 1);
      KeepLength(Kept(delay, total, n - 1), delay(n), total, n - 1);
    }
  }

  lemma {:induction false} KeptExhausted(delay: nat -> real, total: real, m: nat, n: nat)
    requires m <= n && total - Sum(Kept(delay, total, m)) <= 0.0
    ensures Kept(delay, total, n) == Kept(delay, total, m)
    decreases n
  {
    if m == n {
    } else {
      KeptExhausted(delay, total, m, n - 1);
      KeepNothing(Kept(delay, total, m), delay(n), total);
    }
  }

  lemma KeepNothing(kept: seq<real>, delay: real, total: real)
    requires total - Sum(kept) <= 0.0
    ensures Keep(kept, delay, total) == kept
  {
  }

  lemma {:induction false} KeptPaced(delay: nat -> real, m: real, total: real, n: nat)
    requires total > 0.0 && forall k: nat :: m <= delay(k)
    ensures Paced(Kept(delay, total, n), m, total)
  {
    if n == 0 {
    } else {
      KeptPaced(delay, m, total, n - 1);
      KeepPaced(Kept(delay, total, n - 1), delay(n), m, total);
    }
  }

  // ------------------------------------------------------------- the strategy

  datatype Strategy = Strategy(baseDelay: real, maxDelay: real, maxTotalWait: real) {
    predicate Valid() {
      baseDelay > 0.0 && maxDelay > 0.0 && maxTotalWait > 0.0
    }

    /** The delay of an attempt under the cap on single delays. */
    ghost function Capped(attempt: nat): real {
      Min(Times(Fib(attempt), baseDelay), maxDelay)
    }

    /** What the source multiplies, the model adds up. */
    lemma CappedIsProduct(attempt: nat, fib: real)
      requires fib == Fib(attempt) as real
      ensures Capped(attempt) == Min(baseDelay * fib, maxDelay)
    {
      TimesIsProduct(Fib(attempt), baseDelay);
    }

    ghost function Delays(): nat -> real {
      (attempt: nat) => Capped(attempt)
    }

    /** The capped delays of the first n attempts added up, as if nothing capped the total. */
    ghost function CappedSum(n: nat): real {
      Uncut(Delays(), n)
    }

    /** The delays of at most n attempts under both caps. */
    ghost function Planned(n: nat): seq<real> {
      Kept(Delays(), maxTotalWait, n)
    }

    /** No capped delay is shorter than this. */
    function Shortest(): real {
      Min(baseDelay, maxDelay)
    }

    lemma CappedAtLeastShortest()
      requires Valid()
      ensures 0.0 < Shortest() && forall k: nat :: Shortest() <= Delays()(k) <= maxDelay
    {
      forall k: nat ensures Shortest() <= Capped(k) <= maxDelay {
        TimesAtLeastOnce(Fib(k), baseDelay);
      }
    }

    /** The schedule waits min(max_total_wait, sum of the capped delays) in all. */
    lemma PlannedSum(n: nat)
      requires Valid()
      ensures Sum(Planned(n)) == Min(CappedSum(n), maxTotalWait)
    {
      CappedAtLeastShortest();
      KeptSum(Delays(), maxTotalWait, n);
    }

    /** A schedule for fewer attempts is the beginning of one for more. */
    lemma PlannedPrefix(m: nat, n: nat)
      requires m <= n
      ensures Planned(m) <= Planned(n)
    {
      KeptPrefix(Delays(), maxTotalWait, m, n);
    }

    /** One delay per attempt until the total is used up. */
    lemma PlannedLength(n: nat)
      requires Valid()
      ensures |Planned(n)| <= n
      ensures |Planned(n)| < n ==> Sum(Planned(n)) == maxTotalWait
    {
      CappedAtLeastShortest();
      KeptLength(Delays(), maxTotalWait, n);
    }

    /** Once the total is used up, more attempts add nothing. */
    lemma Exhausted(m: nat, n: nat)
      requires m <= n && maxTotalWait - Sum(Planned(m)) <= 0.0
      ensures Planned(n) == Planned(m)
    {
      KeptExhausted(Delays(), maxTotalWait, m, n);
    }

    /**
     * However many attempts, the delays number at most
     * max_total_wait / min(base_delay, max_delay), rounded up.
     */
    lemma AttemptsBound(n: nat)
      requires Valid()
      ensures Shortest() > 0.0 && |Planned(n)| <= Ceiling(maxTotalWait / Shortest())
    {
      CappedAtLeastShortest();
      KeptPaced(Delays(), Shortest(), maxTotalWait, n);
      PacedBound(Planned(n), Shortest(), maxTotalWait);
    }

    /** The n-th Fibonacci number, in a loop over the last two. */
    static method FibLoop(attempt: nat) returns (f: nat)
      ensures f == Fib(attempt)
    {
      if attempt <= 2 { return 1; }
      var previous, current := 1, 1;
      for k := 3 to attempt + 1
        invariant previous == Fib(k - 2) && current == Fib(k - 1)
      {
        previous, current := current, previous + current;
      }
      return current;
    }

    /** The delay of an attempt; attempts count from 1. */
    method NextDelay(attempt: int) returns (r: Checked<real>)
      ensures r.Value? <==> attempt > 0
      ensures r.Value? ==> r.value == Capped(attempt)
    {
      if attempt <= 0 { return ValueError; }
      var f := FibLoop(attempt);
      CappedIsProduct(attempt, f as real);
      r := Value(Min(baseDelay * f as real, maxDelay));
    }

    method Schedule(maxAttempts: int) returns (r: Checked<seq<real>>)
      requires Valid()
      ensures r.Value? <==> maxAttempts >= 0
      ensures r.Value? ==> r.value == Planned(maxAttempts)
    {
      if maxAttempts < 0 { return ValueError; }
      var delays: seq<real> := [];
      var totalWait := 0.0;
      var attempt := 1;
      while attempt <= maxAttempts
        invariant 1 <= attempt <= maxAttempts + 1
        invariant delays == Planned(attempt - 1) && totalWait == Sum(delays)
      {
        var remaining := maxTotalWait - totalWait;
        if remaining <= 0.0 {
          Exhausted(attempt - 1, maxAttempts);
          break;
        }
        var next := NextDelay(attempt);
        var delay := Min(next.value, remaining);
        PlanGoesOn(attempt, delays, next.value, remaining);
        delays, totalWait := delays + [delay], totalWait + delay;
        attempt := attempt + 1;
      }
      r := Value(delays);
    }

    lemma PlanGoesOn(attempt: nat, delays: seq<real>, next: real, remaining: real)
      requires attempt > 0 && delays == Planned(attempt - 1) && next == Capped(attempt)
      requires remaining == maxTotalWait - Sum(delays) && remaining > 0.0
      ensures delays + [Min(next, remaining)] == Planned(attempt)
      ensures Sum(delays + [Min(next, remaining)]) == Sum(delays) + Min(next, remaining)
    {
      KeepsWhatRemains(delays, next, maxTotalWait, remaining);
    }
  }

  /** Strategies are checked when they are made. */
  function MakeStrategy(baseDelay: real, maxDelay: real, maxTotalWait: real): (r: Checked<Strategy>)
    ensures r.Value? <==> Strategy(baseDelay, maxDelay, maxTotalWait).Valid()
  {
    if baseDelay <= 0.0 || maxDelay <= 0.0 || maxTotalWait <= 0.0 then ValueError
    else Value(Strategy(baseDelay, maxDelay, maxTotalWait))
  }
}
