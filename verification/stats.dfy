/** The pure arithmetic of the load-testing harness (server/bench/_common.ts):
    nearest-rank latency percentiles, the per-stage pass/fail verdict, the
    reduction of all stages to one sustainable rate, the stage-rate list
    taken from the environment, and the peak-memory fold of the process
    sampler.  Numbers are exact reals; `toFixed` rounding is not modelled. */
module Stats {
  import opened Wrappers
  import Sorting

  /** A JavaScript number as far as the harness cares: a finite value, or
      one of NaN / +Infinity / -Infinity. */
  datatype JsNumber = Real(value: real) | NonFinite

  // ---------------------------------------------------------------------
  // Latency summary
  // ---------------------------------------------------------------------

  datatype LatencySummary = LatencySummary(p50: real, p95: real, p99: real, max: real)

  const EmptySummary := LatencySummary(0.0, 0.0, 0.0, 0.0)

  /** The comparator `(a, b) => a - b` of the ascending sort. */
  function RealLe(a: real, b: real): bool {
    a <= b
  }

  lemma RealLeIsTotalOrder()
    ensures Sorting.TotalPreorder(RealLe) && Sorting.Antisymmetric(RealLe)
  {
  }

  /** `[...xs].sort((a, b) => a - b)`: an ascending copy; `xs` itself is a
      value and cannot be changed by sorting. */
  function Ascending(xs: seq<real>): (r: seq<real>)
    ensures Sorting.SortedBy(r, RealLe)
    ensures forall i, j :: 0 <= i < j < |r| ==> r[i] <= r[j]
    ensures multiset(r) == multiset(xs) && |r| == |xs|
  {
    RealLeIsTotalOrder();
    Sorting.SortSpec(xs, RealLe);
    Sorting.Sort(xs, RealLe)
  }

  function Min(a: int, b: int): int { if a < b then a else b }
  function Max(a: int, b: int): int { if a < b then b else a }

  /** Zero-based nearest-rank index for the quantile `pct / 100` over `n`
      ascending samples: clamp(ceil(n * pct / 100) - 1, 0, n - 1).  The
      ceiling is computed exactly on integers. */
  function PercentileIndex(n: nat, pct: nat): (k: nat)
    requires n > 0
    ensures k < n
    ensures pct <= 100 ==> n * pct <= (k + 1) * 100
    ensures k == 0 || k * 100 < n * pct
  {
    var scaled := n * pct;
    var rank := (scaled + 99) / 100;
    Min(n - 1, Max(0, rank - 1))
  }

  /** `percentile(sorted, pct / 100)`: 0 for no samples, otherwise the
      sample at the nearest-rank index. */
  function Percentile(sorted: seq<real>, pct: nat): (r: real)
    ensures |sorted| == 0 ==> r == 0.0
    ensures |sorted| > 0 ==> r in sorted
  {
    if |sorted| == 0 then 0.0 else sorted[PercentileIndex(|sorted|, pct)]
  }

  /** `summarizeLatency`: all zero for no samples; otherwise p50, p95, p99
      and the maximum of an ascending copy. */
  function SummarizeLatency(xs: seq<real>): (r: LatencySummary)
    ensures |xs| == 0 ==> r == EmptySummary
    ensures |xs| > 0 ==> r.p50 <= r.p95 <= r.p99 <= r.max
    ensures |xs| > 0 ==> r.p50 in xs && r.p95 in xs && r.p99 in xs && r.max in xs
    ensures forall i :: 0 <= i < |xs| ==> xs[i] <= r.max
    ensures (forall i :: 0 <= i < |xs| ==> xs[i] >= 0.0) ==> r.p50 >= 0.0
  {
    if |xs| == 0 then EmptySummary
    else
      var sorted := Ascending(xs);
      AscendingCopyFacts(xs, sorted);
      SummaryOfSortedFacts(sorted);
      SummaryOfSorted(sorted)
  }

  /** The summary read off an ascending, non-empty sample list. */
  function SummaryOfSorted(sorted: seq<real>): LatencySummary
    requires |sorted| > 0
  {
    LatencySummary(Percentile(sorted, 50), Percentile(sorted, 95),
                   Percentile(sorted, 99), sorted[|sorted| - 1])
  }

  lemma SummaryOfSortedFacts(sorted: seq<real>)
    requires |sorted| > 0
    requires forall i, j :: 0 <= i < j < |sorted| ==> sorted[i] <= sorted[j]
    ensures var r := SummaryOfSorted(sorted);
            && r.p50 <= r.p95 <= r.p99 <= r.max
            && r.p50 == sorted[PercentileIndex(|sorted|, 50)]
            && r.p95 == sorted[PercentileIndex(|sorted|, 95)]
            && r.p99 == sorted[PercentileIndex(|sorted|, 99)]
            && r.max == sorted[|sorted| - 1]
            && r.p50 >= sorted[0]
  {
    PercentileIndexOrder(|sorted|);
  }

  lemma AscendingCopyFacts(xs: seq<real>, sorted: seq<real>)
    requires multiset(sorted) == multiset(xs) && |sorted| == |xs| > 0
    requires forall i, j :: 0 <= i < j < |sorted| ==> sorted[i] <= sorted[j]
    ensures forall i :: 0 <= i < |sorted| ==> sorted[i] in xs
    ensures forall i :: 0 <= i < |xs| ==> xs[i] <= sorted[|sorted| - 1]
  {
    forall i | 0 <= i < |sorted|
      ensures sorted[i] in xs
    {
      assert sorted[i] in multiset(xs);
    }
    forall i | 0 <= i < |xs|
      ensures xs[i] <= sorted[|sorted| - 1]
    {
      assert xs[i] in multiset(sorted);
    }
  }

  lemma PercentileIndexOrder(n: nat)
    requires n > 0
    ensures PercentileIndex(n, 50) <= PercentileIndex(n, 95) <= PercentileIndex(n, 99)
  {
  }

  /** The summary is that of ANY ascending arrangement of the samples:
      each percentile sits at its nearest-rank index of that arrangement. */
  lemma {:induction false} SummaryOfAnyAscendingCopy(xs: seq<real>, t: seq<real>)
    requires |xs| > 0
    requires multiset(t) == multiset(xs)
    requires forall i, j :: 0 <= i < j < |t| ==> t[i] <= t[j]
    ensures |t| == |xs|
    ensures SummarizeLatency(xs) == LatencySummary(
              t[PercentileIndex(|t|, 50)], t[PercentileIndex(|t|, 95)],
              t[PercentileIndex(|t|, 99)], t[|t| - 1])
  {
    assert |t| == |multiset(t)| == |xs|;
    RealLeIsTotalOrder();
    assert Sorting.SortedBy(t, RealLe);
    Sorting.SortedUnique(Ascending(xs), t, RealLe);
  }

  /** The summary depends only on the samples, not on their order. */
  lemma SummaryIgnoresOrder(a: seq<real>, b: seq<real>)
    requires multiset(a) == multiset(b)
    ensures SummarizeLatency(a) == SummarizeLatency(b)
  {
    AscendingDeterminedBySamples(a, b);
  }

  /** Two lists holding the same samples sort to the same list. */
  lemma AscendingDeterminedBySamples(a: seq<real>, b: seq<real>)
    requires multiset(a) == multiset(b)
    ensures Ascending(a) == Ascending(b)
  {
    RealLeIsTotalOrder();
    Sorting.SortedUnique(Ascending(a), Ascending(b), RealLe);
  }

  /** The rank rule on two samples: ceil(2 * 0.5) - 1 = 0, so the median is
      the SMALLER sample, while p95 and p99 are the larger one. */
  lemma TwoSampleSummary()
    ensures SummarizeLatency([10.0, 20.0]) == LatencySummary(10.0, 20.0, 20.0, 20.0)
  {
    SummaryOfAnyAscendingCopy([10.0, 20.0], [10.0, 20.0]);
  }

  // ---------------------------------------------------------------------
  // Stage verdict
  // ---------------------------------------------------------------------

  datatype Thresholds = Thresholds(maxErrorRate: real, maxP95Ms: real)

  /** What one stage run hands back: counters and the latency samples. */
  datatype StageTotals = StageTotals(total: nat, ok: nat, errors: nat, latenciesMs: seq<real>)

  datatype StageResult = StageResult(
    mode: string,
    stage: int,
    targetRps: int,
    actualRps: JsNumber,
    total: nat,
    ok: nat,
    errors: nat,
    errorRate: real,
    latencyMs: LatencySummary,
    pass: bool,
    durationMs: real)

  /** `total / (durationMs / 1000)`; a zero duration divides by zero, which
      JavaScript answers with Infinity or NaN. */
  function ActualRps(total: nat, durationMs: real): (r: JsNumber)
    ensures durationMs != 0.0 <==> r.Real?
    ensures durationMs > 0.0 ==> r.value >= 0.0
  {
    if durationMs == 0.0 then NonFinite
    else
      DivideExact(total as real * 1000.0, durationMs);
      Real(total as real / (durationMs / 1000.0))
  }

  /** The achieved rate over the stage times its length is the number of
      operations. */
  lemma ActualRpsIsRate(total: nat, durationMs: real)
    requires durationMs != 0.0
    ensures ActualRps(total, durationMs).value * durationMs == total as real * 1000.0
  {
  }

  /** `total > 0 ? errors / total : 0`. */
  function ErrorRate(errors: nat, total: nat): (r: real)
    ensures total == 0 ==> r == 0.0
    ensures errors <= total ==> 0.0 <= r <= 1.0
  {
    if total == 0 then 0.0
    else
      DivideBelow(errors as real, total as real, 1.0);
      DivideExact(errors as real, total as real);
      errors as real / total as real
  }

  /** The error rate is the share of failed operations. */
  lemma ErrorRateIsRatio(errors: nat, total: nat)
    requires total > 0
    ensures ErrorRate(errors, total) * total as real == errors as real
  {
    DivideExact(errors as real, total as real);
  }

  lemma DivideExact(e: real, t: real)
    requires t != 0.0
    ensures (e / t) * t == e
    ensures e >= 0.0 && t > 0.0 ==> e / t >= 0.0
  {
  }

  lemma DivideBelow(e: real, t: real, m: real)
    ensures t > 0.0 ==> (e / t <= m <==> e <= m * t)
  {
    if t > 0.0 {
      assert (e / t) * t == e;
      if e / t <= m {
        assert (e / t) * t <= m * t;
      } else {
        assert (e / t) * t > m * t;
      }
    }
  }

  /** `buildStageResult`: the counters, the error rate, the latency
      summary and the achieved rate of the stage; it passes when the
      UNROUNDED error rate and the p95 are within the thresholds. */
  function BuildStageResult(mode: string, stage: int, targetRps: int, durationMs: real,
                            totals: StageTotals, thresholds: Thresholds): (r: StageResult)
    ensures r.total == totals.total && r.ok == totals.ok && r.errors == totals.errors
    ensures r.targetRps == targetRps && r.durationMs == durationMs
    ensures r.errorRate == ErrorRate(totals.errors, totals.total)
    ensures r.actualRps == ActualRps(totals.total, durationMs)
    ensures r.latencyMs == SummarizeLatency(totals.latenciesMs)
    ensures r.pass <==> r.errorRate <= thresholds.maxErrorRate && r.latencyMs.p95 <= thresholds.maxP95Ms
  {
    var errorRate := ErrorRate(totals.errors, totals.total);
    var latency := SummarizeLatency(totals.latenciesMs);
    StageResult(mode, stage, targetRps, ActualRps(totals.total, durationMs), totals.total,
                totals.ok, totals.errors, errorRate, latency,
                errorRate <= thresholds.maxErrorRate && latency.p95 <= thresholds.maxP95Ms,
                durationMs)
  }

  /** The verdict without division: at most `maxErrorRate * total`
      failures (any threshold >= 0 admits an empty stage), and a p95 within
      bound. */
  lemma StagePassCriterion(mode: string, stage: int, targetRps: int, durationMs: real,
                           totals: StageTotals, thresholds: Thresholds)
    ensures BuildStageResult(mode, stage, targetRps, durationMs, totals, thresholds).pass <==>
              && (if totals.total == 0 then 0.0 <= thresholds.maxErrorRate
                  else totals.errors as real <= thresholds.maxErrorRate * totals.total as real)
              && SummarizeLatency(totals.latenciesMs).p95 <= thresholds.maxP95Ms
  {
    ErrorRateWithin(totals.errors, totals.total, thresholds.maxErrorRate);
  }

  /** The error-rate threshold read without division. */
  lemma ErrorRateWithin(errors: nat, total: nat, m: real)
    ensures ErrorRate(errors, total) <= m <==>
              if total == 0 then 0.0 <= m else errors as real <= m * total as real
  {
    if total > 0 {
      DivideBelow(errors as real, total as real, m);
    }
  }

  /** A stage that issued nothing is judged by the same formula and passes
      whenever both thresholds are non-negative. */
  lemma ZeroTrafficStagePasses(mode: string, stage: int, targetRps: int, durationMs: real,
                               thresholds: Thresholds)
    requires thresholds.maxErrorRate >= 0.0 && thresholds.maxP95Ms >= 0.0
    ensures BuildStageResult(mode, stage, targetRps, durationMs,
                             StageTotals(0, 0, 0, []), thresholds).pass
  {
  }

  // ---------------------------------------------------------------------
  // Reduction to one rate
  // ---------------------------------------------------------------------

  /** `stages.filter((stage) => stage.pass)`. */
  function PassingStages(stages: seq<StageResult>): (r: seq<StageResult>)
    ensures forall k :: 0 <= k < |r| ==> r[k].pass && r[k] in stages
    ensures forall i :: 0 <= i < |stages| && stages[i].pass ==> stages[i] in r
  {
    if |stages| == 0 then []
    else if stages[0].pass then [stages[0]] + PassingStages(stages[1..])
    else PassingStages(stages[1..])
  }

  /** `.reduce((best, stage) => Math.max(best, stage.targetRps), best)`. */
  function FoldMaxTarget(stages: seq<StageResult>, best: int): (r: int)
    ensures r >= best
    ensures forall k :: 0 <= k < |stages| ==> stages[k].targetRps <= r
    ensures r == best || exists k :: 0 <= k < |stages| && stages[k].targetRps == r
  {
    if |stages| == 0 then best
    else
      var r := FoldMaxTarget(stages[1..], Max(best, stages[0].targetRps));
      assert forall k :: 1 <= k < |stages| ==> stages[k] == stages[1..][k - 1];
      r
  }

  /** `maxSustainableRps`: 0 when nothing passes, otherwise the largest
      target rate among the passing stages. */
  function MaxSustainableRps(stages: seq<StageResult>): (r: int)
    ensures r >= 0
    ensures forall i :: 0 <= i < |stages| && stages[i].pass ==> stages[i].targetRps <= r
    ensures r == 0 || exists i :: 0 <= i < |stages| && stages[i].pass && stages[i].targetRps == r
  {
    var passing := PassingStages(stages);
    var r := FoldMaxTarget(passing, 0);
    assert forall i :: 0 <= i < |stages| && stages[i].pass ==> stages[i] in passing;
    r
  }

  lemma MaxSustainableBelow(a: seq<StageResult>, b: seq<StageResult>)
    requires multiset(a) == multiset(b)
    ensures MaxSustainableRps(a) <= MaxSustainableRps(b)
  {
    var ra := MaxSustainableRps(a);
    if ra != 0 {
      var i :| 0 <= i < |a| && a[i].pass && a[i].targetRps == ra;
      assert a[i] in multiset(b);
      var j :| 0 <= j < |b| && b[j] == a[i];
      assert b[j].targetRps <= MaxSustainableRps(b);
    }
  }

  /** The stage order does not matter to the reduction. */
  lemma MaxSustainableIgnoresOrder(a: seq<StageResult>, b: seq<StageResult>)
    requires multiset(a) == multiset(b)
    ensures MaxSustainableRps(a) == MaxSustainableRps(b)
  {
    MaxSustainableBelow(a, b);
    MaxSustainableBelow(b, a);
  }

  /** The run-level scenario: thresholds 1% / 200 ms, a 500 rps stage with
      0.2% errors and p95 150 ms passes, a later 2000 rps stage with 5%
      errors fails, and the sustainable rate is 500, not 2000. */
  lemma HighestPassingStageWins()
    ensures
      var th := Thresholds(0.01, 200.0);
      var s1 := BuildStageResult("ws", 1, 500, 60000.0, StageTotals(500, 499, 1, [150.0]), th);
      var s2 := BuildStageResult("ws", 2, 2000, 60000.0, StageTotals(100, 95, 5, [120.0]), th);
      s1.pass && !s2.pass && MaxSustainableRps([s1, s2]) == 500
  {
    var th := Thresholds(0.01, 200.0);
    var s1 := BuildStageResult("ws", 1, 500, 60000.0, StageTotals(500, 499, 1, [150.0]), th);
    var s2 := BuildStageResult("ws", 2, 2000, 60000.0, StageTotals(100, 95, 5, [120.0]), th);
    SummaryOfAnyAscendingCopy([150.0], [150.0]);
    SummaryOfAnyAscendingCopy([120.0], [120.0]);
    assert s1.pass && !s2.pass;
    var r := MaxSustainableRps([s1, s2]);
    assert r >= 500;
    assert r == 0 || r == 500 by {
      if r != 0 {
        var i :| 0 <= i < 2 && [s1, s2][i].pass && [s1, s2][i].targetRps == r;
      }
    }
  }

  // ---------------------------------------------------------------------
  // Stage-rate list
  // ---------------------------------------------------------------------

  const DefaultStageRps: seq<int> := [250, 500, 750, 1000, 1250, 1500, 1750, 2000]

  /** `.filter((value) => Number.isFinite(value) && value > 0)`. */
  function PositiveFinite(xs: seq<JsNumber>): (r: seq<real>)
    ensures |r| <= |xs|
    ensures forall k :: 0 <= k < |r| ==> r[k] > 0.0 && Real(r[k]) in xs
    ensures forall i :: 0 <= i < |xs| && xs[i].Real? && xs[i].value > 0.0 ==> xs[i].value in r
  {
    if |xs| == 0 then []
    else
      var rest := PositiveFinite(xs[1..]);
      assert forall k :: 0 <= k < |rest| ==> Real(rest[k]) in xs[1..];
      if xs[0].Real? && xs[0].value > 0.0 then [xs[0].value] + rest else rest
  }

  /** The filter distributes over concatenation, so with
      `PositiveFiniteSingle` it keeps every positive finite value, each as
      often as it occurs, in input order. */
  lemma {:induction false} PositiveFiniteConcat(a: seq<JsNumber>, b: seq<JsNumber>)
    ensures PositiveFinite(a + b) == PositiveFinite(a) + PositiveFinite(b)
    decreases |a|
  {
    if |a| == 0 {
      assert a + b == b;
    } else {
      assert (a + b)[1..] == a[1..] + b;
      PositiveFiniteConcat(a[1..], b);
    }
  }

  /** One value is kept exactly when it is finite and positive. */
  lemma PositiveFiniteSingle(x: JsNumber)
    ensures PositiveFinite([x]) == if x.Real? && x.value > 0.0 then [x.value] else []
  {
  }

  /** `.map((value) => Math.floor(value))`. */
  function FloorAll(xs: seq<real>): (r: seq<int>)
    ensures |r| == |xs|
    ensures forall k :: 0 <= k < |xs| ==> r[k] == xs[k].Floor
  {
    if |xs| == 0 then [] else [xs[0].Floor] + FloorAll(xs[1..])
  }

  /** `parseStageRpsEnv` after the text has been split and each piece
      converted with `Number`: `raw` is `None` when the variable is unset or
      empty.  Positive finite values survive and are then floored, so an
      entry may be 0; the fallback is used when nothing survives. */
  function ParseStageRps(raw: Option<seq<JsNumber>>, fallback: seq<int>): (r: seq<int>)
    ensures raw.None? ==> r == fallback
    ensures |fallback| > 0 ==> |r| > 0
    ensures (raw.Some? && forall j :: 0 <= j < |raw.value| ==> !(raw.value[j].Real? && raw.value[j].value > 0.0))
              ==> r == fallback
    ensures (raw.Some? && exists j :: 0 <= j < |raw.value| && raw.value[j].Real? && raw.value[j].value > 0.0)
              ==> |r| > 0 && forall k :: 0 <= k < |r| ==> r[k] >= 0 && exists v :: Real(v) in raw.value && v > 0.0 && r[k] == v.Floor
  {
    match raw
    case None => fallback
    case Some(values) =>
      var kept := PositiveFinite(values);
      var parsed := FloorAll(kept);
      assert forall k :: 0 <= k < |kept| ==> kept[k].Floor >= 0;
      if |parsed| > 0 then parsed else fallback
  }

  lemma {:induction false} FloorAllConcat(a: seq<real>, b: seq<real>)
    ensures FloorAll(a + b) == FloorAll(a) + FloorAll(b)
  {
  }

  /** Rates listed in two parts that each hold a positive finite value
      parse to the two parts' rates one after the other: every rate is
      kept, floored, in the order given. */
  lemma ParseStageRpsConcat(a: seq<JsNumber>, b: seq<JsNumber>, fallback: seq<int>)
    requires exists j :: 0 <= j < |a| && a[j].Real? && a[j].value > 0.0
    requires exists j :: 0 <= j < |b| && b[j].Real? && b[j].value > 0.0
    ensures ParseStageRps(Some(a + b), fallback) == ParseStageRps(Some(a), fallback) + ParseStageRps(Some(b), fallback)
  {
    PositiveFiniteConcat(a, b);
    FloorAllConcat(PositiveFinite(a), PositiveFinite(b));
    var ja :| 0 <= ja < |a| && a[ja].Real? && a[ja].value > 0.0;
    var jb :| 0 <= jb < |b| && b[jb].Real? && b[jb].value > 0.0;
    assert a[ja].value in PositiveFinite(a);
    assert b[jb].value in PositiveFinite(b);
  }

  /** A single positive finite rate parses to its floor; anything else
      gives the fallback. */
  lemma ParseStageRpsSingle(x: JsNumber, fallback: seq<int>)
    ensures ParseStageRps(Some([x]), fallback) == if x.Real? && x.value > 0.0 then [x.value.Floor] else fallback
  {
    PositiveFiniteSingle(x);
  }

  /** A fractional rate below 1 survives the positivity filter and is then
      floored to 0. */
  lemma FractionalRateFloorsToZero()
    ensures ParseStageRps(Some([Real(0.5)]), DefaultStageRps) == [0]
  {
    assert PositiveFinite([Real(0.5)]) == [0.5];
  }

  // ---------------------------------------------------------------------
  // Process sampler
  // ---------------------------------------------------------------------

  /** The interval callback folded over the memory readings:
      `if (current > peakRss) peakRss = current`. */
  function PeakFold(peak: int, samples: seq<int>): (r: int)
    decreases |samples|
    ensures r >= peak
    ensures forall k :: 0 <= k < |samples| ==> samples[k] <= r
    ensures r == peak || r in samples
  {
    if |samples| == 0 then peak
    else
      var r := PeakFold(if samples[0] > peak then samples[0] else peak, samples[1..]);
      assert forall k :: 1 <= k < |samples| ==> samples[k] == samples[1..][k - 1];
      r
  }

  datatype ProcessSample = ProcessSample(rssMbStart: real, rssMbEnd: real, rssMbPeak: real,
                                         cpuUserMs: real, cpuSystemMs: real)

  const BytesPerMb: real := 1048576.0

  /** `stop()` of the sampler: the peak is the largest of the start reading,
      every interval reading and the end reading; memory in megabytes, CPU
      time from microseconds to milliseconds. */
  function StopSampler(startRss: int, samples: seq<int>, endRss: int,
                       cpuUserMicros: int, cpuSystemMicros: int): (r: ProcessSample)
    ensures r.rssMbStart == startRss as real / BytesPerMb && r.rssMbEnd == endRss as real / BytesPerMb
    ensures r.rssMbPeak >= r.rssMbStart && r.rssMbPeak >= r.rssMbEnd
    ensures startRss as real <= r.rssMbPeak * BytesPerMb && endRss as real <= r.rssMbPeak * BytesPerMb
    ensures forall k :: 0 <= k < |samples| ==> samples[k] as real <= r.rssMbPeak * BytesPerMb
    ensures r.rssMbPeak * BytesPerMb == startRss as real || r.rssMbPeak * BytesPerMb == endRss as real
            || exists k :: 0 <= k < |samples| && r.rssMbPeak * BytesPerMb == samples[k] as real
    ensures r.cpuUserMs * 1000.0 == cpuUserMicros as real
    ensures r.cpuSystemMs * 1000.0 == cpuSystemMicros as real
  {
    var peak := Max(PeakFold(startRss, samples), endRss);
    ProcessSample(startRss as real / BytesPerMb, endRss as real / BytesPerMb,
                  peak as real / BytesPerMb, cpuUserMicros as real / 1000.0,
                  cpuSystemMicros as real / 1000.0)
  }
}
