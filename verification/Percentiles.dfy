/** The two percentile functions, of the command line and of the metrics registry, over the reals. */
module Percentiles {
  import opened Models
  import opened Reals

  predicate Nondecreasing(s: seq<real>) {
    forall i, j :: 0 <= i <= j < |s| ==> s[i] <= s[j]
  }

  // ------------------------------------------------------------------ sorting

  function Insert(s: seq<real>, x: real): (r: seq<real>)
    ensures multiset(r) == multiset(s) + multiset{x}
  {
    if s == [] || x <= s[0] then [x] + s
    else
      assert s == [s[0]] + s[1..];
      [s[0]] + Insert(s[1..], x)
  }

  lemma {:induction false} InsertKeepsOrder(s: seq<real>, x: real)
    requires Nondecreasing(s)
    ensures Nondecreasing(Insert(s, x))
  {
    if s == [] || x <= s[0] {
    } else {
      var rest := Insert(s[1..], x);
      InsertKeepsOrder(s[1..], x);
      forall y | y in rest ensures s[0] <= y {
        assert y in multiset(rest);
        assert y == x || y in s[1..];
      }
      ConsKeepsOrder(s[0], rest);
    }
  }

  lemma ConsKeepsOrder(x: real, s: seq<real>)
    requires Nondecreasing(s) && forall y :: y in s ==> x <= y
    ensures Nondecreasing([x] + s)
  {
    assert forall j :: 0 <= j < |s| ==> s[j] in s;
  }

  /** `sorted(values)`. */
  function Sort(values: seq<real>): (r: seq<real>)
    ensures Nondecreasing(r) && multiset(r) == multiset(values) && |r| == |values|
  {
    if values == [] then []
    else
      var last := |values| - 1;
      assert values == values[..last] + [values[last]];
      var before := Sort(values[..last]);
      InsertKeepsOrder(before, values[last]);
      var r := Insert(before, values[last]);
      assert |multiset(r)| == |r|;
      r
  }

  // -------------------------------------------------------------- percentiles

  /** Position of the quantile among the samples, in [0, n - 1]. */
  function Position(n: nat, q: real): real
    requires n > 0
  {
    (n - 1) as real * q
  }

  lemma PositionInRange(n: nat, q: real)
    requires n > 0 && 0.0 <= q <= 1.0
    ensures 0.0 <= Position(n, q) <= (n - 1) as real
    ensures 0 <= Position(n, q).Floor <= Ceiling(Position(n, q)) <= n - 1
    ensures Ceiling(Position(n, q)) <= Position(n, q).Floor + 1
    ensures Ceiling(Position(n, q)) == Position(n, q).Floor <==> Position(n, q) == Position(n, q).Floor as real
  {
    Scaled((n - 1) as real, q);
  }

  lemma Scaled(m: real, q: real)
    requires m >= 0.0 && 0.0 <= q <= 1.0
    ensures 0.0 <= m * q <= m
  {
  }

  function Blend(a: real, b: real, weight: real): real {
    a * (1.0 - weight) + b * weight
  }

  /** The percentile of the command line: interpolation between neighbours, the last one its own neighbour. */
  function CliPercentile(values: seq<real>, percentile: real): Option<real>
    requires 0.0 <= percentile <= 1.0
  {
    if values == [] then None
    else
      var ordered := Sort(values);
      if |ordered| == 1 then Some(ordered[0])
      else
        PositionInRange(|ordered|, percentile);
        Some(AmongNeighbours(ordered, Position(|ordered|, percentile)))
  }

  function AmongNeighbours(ordered: seq<real>, position: real): real
    requires ordered != [] && 0.0 <= position <= (|ordered| - 1) as real
  {
    var lower := position.Floor;
    var upper := if lower + 1 < |ordered| - 1 then lower + 1 else |ordered| - 1;
    Blend(ordered[lower], ordered[upper], position - lower as real)
  }

  /** The percentile of the metrics registry, on samples that are already sorted. */
  function MetricsPercentile(samples: seq<real>, q: real): real
    requires 0.0 <= q <= 1.0
  {
    if samples == [] then 0.0
    else
      PositionInRange(|samples|, q);
      var k := Position(|samples|, q);
      var f, c := k.Floor, Ceiling(k);
      if f == c then samples[f] else samples[f] * (c as real - k) + samples[c] * (k - f as real)
  }

  lemma WholeWeight(a: real, b: real)
    ensures Blend(a, b, 0.0) == a
  {
  }

  lemma ByEnds(a: real, b: real, rest: real, weight: real)
    requires rest == 1.0 - weight
    ensures a * rest + b * weight == Blend(a, b, weight)
  {
  }

  // -------------------------------------------------------------- monotonicity

  /** Linear interpolation between neighbours, at any real position. */
  ghost function At(s: seq<real>, k: real): real
    requires s != [] && 0.0 <= k <= (|s| - 1) as real
  {
    var f := k.Floor;
    if f == |s| - 1 then s[f] else Blend(s[f], s[f + 1], k - f as real)
  }

  lemma PercentileIsAt(samples: seq<real>, q: real)
    requires samples != [] && 0.0 <= q <= 1.0
    ensures 0.0 <= Position(|samples|, q) <= (|samples| - 1) as real
    ensures MetricsPercentile(samples, q) == At(samples, Position(|samples|, q))
  {
    PositionInRange(|samples|, q);
    var k := Position(|samples|, q);
    var f := k.Floor;
    if k == f as real && f < |samples| - 1 { WholeWeight(samples[f], samples[f + 1]); }
    if k != f as real { ByEnds(samples[f], samples[f + 1], Ceiling(k) as real - k, k - f as real); }
  }

  lemma CliIsAt(values: seq<real>, q: real)
    requires values != [] && 0.0 <= q <= 1.0
    ensures 0.0 <= Position(|values|, q) <= (|values| - 1) as real
    ensures CliPercentile(values, q) == Some(At(Sort(values), Position(|values|, q)))
  {
    PositionInRange(|values|, q);
    NeighboursAreAt(Sort(values), Position(|values|, q));
  }

  lemma NeighboursAreAt(s: seq<real>, k: real)
    requires s != [] && 0.0 <= k <= (|s| - 1) as real
    ensures AmongNeighbours(s, k) == At(s, k)
  {
    if k.Floor == |s| - 1 { WholeWeight(s[|s| - 1], s[|s| - 1]); }
  }

  /** The two agree on every non-empty list of samples and every quantile. */
  lemma PercentilesAgree(values: seq<real>, q: real)
    requires values != [] && 0.0 <= q <= 1.0
    ensures CliPercentile(values, q) == Some(MetricsPercentile(Sort(values), q))
  {
    CliIsAt(values, q);
    PercentileIsAt(Sort(values), q);
  }

  /**
   * What a quantile is: the samples stand at equal steps from 0 to 1, and between two of them the value
   * moves on a straight line.
   */
  lemma PercentileInterpolates(samples: seq<real>, q: real, k: nat, t: real)
    requires 0.0 <= q <= 1.0 && k < |samples| && 0.0 <= t < 1.0
    requires (|samples| - 1) as real * q == k as real + t
    ensures k == |samples| - 1 ==> MetricsPercentile(samples, q) == samples[k]
    ensures k < |samples| - 1 ==> MetricsPercentile(samples, q) == samples[k] * (1.0 - t) + samples[k + 1] * t
  {
    PercentileIsAt(samples, q);
    AtBetweenSamples(samples, Position(|samples|, q), k, t);
    if k < |samples| - 1 { BlendIs(samples[k], samples[k + 1], t); }
  }

  lemma BlendIs(a: real, b: real, t: real)
    ensures Blend(a, b, t) == a * (1.0 - t) + b * t
  {
  }

  lemma AtBetweenSamples(s: seq<real>, position: real, k: nat, t: real)
    requires k < |s| && 0.0 <= t < 1.0 && 0.0 <= position <= (|s| - 1) as real && position == k as real + t
    ensures At(s, position) == if k == |s| - 1 then s[k] else Blend(s[k], s[k + 1], t)
  {
    assert position.Floor == k && position - k as real == t;
  }

  /** The interpolation with its two products named. */
  lemma BlendExpanded(a: real, b: real, w: real, aw: real, bw: real)
    requires aw == a * w && bw == b * w
    ensures Blend(a, b, w) == a - aw + bw
  {
  }

  lemma WeightedRest(a: real, b: real, w: real, aw: real, bw: real)
    requires a <= b && w <= 1.0 && aw == a * w && bw == b * w
    ensures a - aw <= b - bw
  {
    Weighted(a, b, 1.0 - w, a - aw, b - bw);
  }

  lemma GapGrows(a: real, b: real, v: real, w: real, av: real, bv: real, aw: real, bw: real)
    requires a <= b && v <= w
    requires av == a * v && bv == b * v && aw == a * w && bw == b * w
    ensures bv - av <= bw - aw
  {
    Weighted(a, b, w - v, aw - av, bw - bv);
  }

  lemma BlendBetween(a: real, b: real, w: real)
    requires a <= b && 0.0 <= w <= 1.0
    ensures a <= Blend(a, b, w) <= b
  {
    var aw, bw := a * w, b * w;
    Weighted(a, b, w, aw, bw);
    WeightedRest(a, b, w, aw, bw);
    BlendExpanded(a, b, w, aw, bw);
  }

  lemma BlendGrows(a: real, b: real, v: real, w: real)
    requires a <= b && v <= w
    ensures Blend(a, b, v) <= Blend(a, b, w)
  {
    var av, bv, aw, bw := a * v, b * v, a * w, b * w;
    GapGrows(a, b, v, w, av, bv, aw, bw);
    BlendExpanded(a, b, v, av, bv);
    BlendExpanded(a, b, w, aw, bw);
  }

  /** Between two whole positions the value stays between the two samples. */
  lemma AtBetween(s: seq<real>, k: real)
    requires Nondecreasing(s) && s != [] && 0.0 <= k <= (|s| - 1) as real
    ensures s[k.Floor] <= At(s, k)
    ensures k.Floor < |s| - 1 ==> At(s, k) <= s[k.Floor + 1]
  {
    if k.Floor < |s| - 1 { BlendBetween(s[k.Floor], s[k.Floor + 1], k - k.Floor as real); }
  }

  lemma AtGrows(s: seq<real>, j: real, k: real)
    requires Nondecreasing(s) && s != [] && 0.0 <= j <= k <= (|s| - 1) as real
    ensures At(s, j) <= At(s, k)
  {
    if j.Floor == k.Floor {
      if j.Floor < |s| - 1 { BlendGrows(s[j.Floor], s[j.Floor + 1], j - j.Floor as real, k - j.Floor as real); }
    } else {
      AtBetween(s, j);
      AtBetween(s, k);
    }
  }

  /** The percentile never falls as the quantile rises, from the least sample to the largest. */
  lemma PercentileMonotone(samples: seq<real>, p: real, q: real)
    requires samples != [] && Nondecreasing(samples) && 0.0 <= p <= q <= 1.0
    ensures samples[0] <= MetricsPercentile(samples, p)
    ensures MetricsPercentile(samples, p) <= MetricsPercentile(samples, q)
    ensures MetricsPercentile(samples, q) <= samples[|samples| - 1]
  {
    PercentileIsAt(samples, p);
    PercentileIsAt(samples, q);
    var n := |samples|;
    PositionGrows(n, p, q);
    AtGrows(samples, Position(n, p), Position(n, q));
    AtGrows(samples, Position(n, q), (n - 1) as real);
    AtBetween(samples, Position(n, p));
  }

  lemma PositionGrows(n: nat, p: real, q: real)
    requires n > 0 && p <= q
    ensures Position(n, p) <= Position(n, q)
  {
    var m := (n - 1) as real;
    assert m * (q - p) >= 0.0;
    assert m * (q - p) == m * q - m * p;
  }

  // -------------------------------------------------------------------- median

  function Median(values: seq<real>): real
    requires values != []
  {
    var s := Sort(values);
    var n := |s|;
    if n % 2 == 1 then s[n / 2] else (s[n / 2 - 1] + s[n / 2]) / 2.0
  }

  /** The median is the percentile at one half. */
  lemma MedianIsPercentile(values: seq<real>)
    requires values != []
    ensures CliPercentile(values, 0.5) == Some(Median(values))
  {
    var s, k := Sort(values), Position(|values|, 0.5);
    CliIsAt(values, 0.5);
    assert At(s, k) == Median(values) by {
      HalfWay(|s|);
      MedianIsMiddle(s, k);
    }
  }

  lemma HalfWay(n: nat)
    requires n > 0
    ensures Position(n, 0.5) == (n - 1) as real / 2.0
  {
  }

  lemma MedianIsMiddle(s: seq<real>, k: real)
    requires s != [] && k == (|s| - 1) as real / 2.0
    ensures At(s, k) == if |s| % 2 == 1 then s[|s| / 2] else (s[|s| / 2 - 1] + s[|s| / 2]) / 2.0
  {
    var n := |s|;
    MiddlePosition(n, k);
    if n % 2 == 1 {
      if n / 2 < n - 1 { WholeWeight(s[n / 2], s[n / 2 + 1]); }
    } else {
      Halves(s[n / 2 - 1], s[n / 2]);
    }
  }

  lemma MiddlePosition(n: nat, k: real)
    requires n > 0 && k == (n - 1) as real / 2.0
    ensures n % 2 == 1 ==> k == (n / 2) as real && k.Floor == n / 2
    ensures n % 2 == 0 ==> k == (n / 2 - 1) as real + 0.5 && k.Floor == n / 2 - 1
  {
  }

  lemma Halves(a: real, b: real)
    ensures Blend(a, b, 0.5) == (a + b) / 2.0
  {
  }

  datatype TimingStats = TimingStats(min: Option<real>, max: Option<real>, median: Option<real>, iqr: Option<real>)

  function TimingStatsOf(values: seq<real>): TimingStats {
    if values == [] then TimingStats(None, None, None, None)
    else
      var s := Sort(values);
      var q1, q3 := CliPercentile(values, 0.25), CliPercentile(values, 0.75);
      TimingStats(Some(s[0]), Some(s[|s| - 1]), Some(Median(values)),
                  if q1.Some? && q3.Some? then Some(q3.value - q1.value) else None)
  }

  /** The least and the largest sample. */
  lemma TimingRange(values: seq<real>)
    requires values != []
    ensures var t := TimingStatsOf(values);
            && t.min.Some? && t.max.Some? && t.min.value in values && t.max.value in values
            && forall v :: v in values ==> t.min.value <= v <= t.max.value
  {
    EndsOfSorted(values, Sort(values));
  }

  /** The percentile at one half, and the distance between those at the quarters. */
  lemma TimingQuarters(values: seq<real>)
    requires values != []
    ensures TimingStatsOf(values).median == CliPercentile(values, 0.5)
    ensures CliPercentile(values, 0.25).Some? && CliPercentile(values, 0.75).Some?
    ensures TimingStatsOf(values).iqr
         == Some(CliPercentile(values, 0.75).value - CliPercentile(values, 0.25).value)
  {
    MedianIsPercentile(values);
  }

  lemma EndsOfSorted(values: seq<real>, s: seq<real>)
    requires s != [] && Nondecreasing(s) && multiset(s) == multiset(values)
    ensures s[0] in values && s[|s| - 1] in values && forall v :: v in values ==> s[0] <= v <= s[|s| - 1]
  {
    forall v ensures v in values <==> v in s {
      assert v in multiset(s) <==> v in multiset(values);
    }
  }

  /** The spread is never negative and never exceeds the range; the median lies in the range. */
  lemma SpreadNeverNegative(values: seq<real>)
    requires values != []
    ensures var t := TimingStatsOf(values);
            && t.iqr.Some? && t.min.Some? && t.max.Some? && t.median.Some?
            && 0.0 <= t.iqr.value <= t.max.value - t.min.value
            && t.min.value <= t.median.value <= t.max.value
  {
    var s := Sort(values);
    PercentilesAgree(values, 0.25);
    PercentilesAgree(values, 0.75);
    MedianIsPercentile(values);
    PercentilesAgree(values, 0.5);
    PercentileMonotone(s, 0.25, 0.75);
    PercentileMonotone(s, 0.5, 0.5);
  }
}
