/** `metrics_json` of the evaluation report: after dropping the warm-up
    samples it summarises the per-frame times (fps, p50/p95/p99), the
    per-stage means, the mean overhead, the unknown rate and the share of
    frames within the latency budget. Floats are exact reals here. */
module EvalReporting {
  import opened Base
  import Stats

  /** The recorded samples: per-frame times, one list per stage, and the
      per-frame unknown flags. */
  datatype Samples = Samples(perFrameMs: seq<real>, perStageMs: map<string, seq<real>>, unknownFlags: seq<bool>)

  /** `per_stage_ms` with every list cut the same way. */
  function DropStages(stages: map<string, seq<real>>, k: nat): (r: map<string, seq<real>>)
    ensures r.Keys == stages.Keys
    ensures forall name :: name in stages ==> r[name] == PyDrop(stages[name], k)
  {
    map name | name in stages :: PyDrop(stages[name], k)
  }

  /** The warm-up cut: a positive `warmup` drops that many leading samples
      from the frames, the flags and every stage list alike. */
  function Warmup(x: Samples, warmup: int): (r: Samples)
    ensures warmup <= 0 ==> r == x
    ensures warmup > 0 ==> |r.perFrameMs| == Max(0, |x.perFrameMs| - warmup)
    ensures warmup > 0 ==> |r.unknownFlags| == Max(0, |x.unknownFlags| - warmup)
    ensures warmup > 0 ==> forall i :: 0 <= i < |r.perFrameMs| ==> r.perFrameMs[i] == x.perFrameMs[warmup + i]
    ensures warmup > 0 ==> forall i :: 0 <= i < |r.unknownFlags| ==> r.unknownFlags[i] == x.unknownFlags[warmup + i]
    ensures r.perStageMs.Keys == x.perStageMs.Keys
    ensures warmup > 0 ==> forall name :: name in x.perStageMs ==>
      |r.perStageMs[name]| == Max(0, |x.perStageMs[name]| - warmup)
  {
    if warmup > 0 then
      Samples(PyDrop(x.perFrameMs, warmup), DropStages(x.perStageMs, warmup), PyDrop(x.unknownFlags, warmup))
    else x
  }

  lemma DropTwice<T>(s: seq<T>, a: nat, b: nat)
    ensures PyDrop(PyDrop(s, a), b) == PyDrop(s, a + b)
  {
  }

  /** Two warm-up cuts are one cut of the combined length. */
  lemma WarmupCompose(x: Samples, a: int, b: int)
    requires a > 0 && b > 0
    ensures Warmup(Warmup(x, a), b) == Warmup(x, a + b)
  {
    DropTwice(x.perFrameMs, a, b);
    DropTwice(x.unknownFlags, a, b);
    var twice := DropStages(DropStages(x.perStageMs, a), b);
    forall name | name in x.perStageMs
      ensures twice[name] == DropStages(x.perStageMs, a + b)[name]
    {
      DropTwice(x.perStageMs[name], a, b);
    }
  }

  /** `fmean(xs) if xs else 0.0`. */
  function Mean(xs: seq<real>): (r: real)
    ensures |xs| == 0 ==> r == 0.0
    ensures |xs| > 0 ==> r * |xs| as real == Sum(xs)
  {
    if |xs| == 0 then 0.0 else Sum(xs) / |xs| as real
  }

  lemma {:induction false} SumPositive(xs: seq<real>)
    requires forall i :: 0 <= i < |xs| ==> xs[i] > 0.0
    ensures |xs| > 0 ==> Sum(xs) > 0.0
    decreases |xs|
  {
    if |xs| > 0 {
      SumPositive(xs[..|xs| - 1]);
    }
  }

  /** `per_stage_ms.get(name, [])`. */
  function Stage(stages: map<string, seq<real>>, name: string): seq<real> {
    if name in stages then stages[name] else []
  }

  function At(xs: seq<real>, i: nat): real {
    if i < |xs| then xs[i] else 0.0
  }

  /** Each frame's time not spent in a recorded stage; a stage with no
      sample at that index counts as zero. */
  function Overheads(frames: seq<real>, stages: map<string, seq<real>>): (r: seq<real>)
    ensures |r| == |frames|
    ensures forall i :: 0 <= i < |frames| ==>
      (r[i] + At(Stage(stages, "detect"), i) + At(Stage(stages, "track"), i)
        + At(Stage(stages, "embed"), i) + At(Stage(stages, "match"), i) == frames[i])
  {
    seq(|frames|, i requires 0 <= i < |frames| =>
      frames[i] - (At(Stage(stages, "detect"), i) + At(Stage(stages, "track"), i)
        + At(Stage(stages, "embed"), i) + At(Stage(stages, "match"), i)))
  }

  /** Share of unknown frames: `sum(flags) / len(flags)`, 0 without flags. */
  function UnknownRate(flags: seq<bool>): (r: real)
    ensures |flags| == 0 ==> r == 0.0
    ensures |flags| > 0 ==> r * |flags| as real == CountWhere(flags, (b: bool) => b) as real
    ensures 0.0 <= r <= 1.0
  {
    if |flags| == 0 then 0.0
    else
      var n := CountWhere(flags, (b: bool) => b);
      Stats.Fraction(n, |flags|);
      n as real / |flags| as real
  }

  /** Percentage of frames at or under the budget, 0 without frames. */
  function WithinPct(frames: seq<real>, budget: real): (r: real)
    ensures |frames| == 0 ==> r == 0.0
    ensures |frames| > 0 ==> r * |frames| as real == CountWhere(frames, (ms: real) => ms <= budget) as real * 100.0
    ensures 0.0 <= r <= 100.0
  {
    if |frames| == 0 then 0.0
    else
      var n := CountWhere(frames, (ms: real) => ms <= budget);
      Stats.Fraction(n, |frames|);
      n as real / |frames| as real * 100.0
  }

  /** `_percentile` at `0 <= q <= 100` of a non-empty list stays within it. */
  lemma PercentileBounds(values: seq<real>, q: real)
    requires |values| > 0 && 0.0 <= q <= 100.0
    ensures Stats.Percentile(values, q).Ok?
    ensures exists i :: 0 <= i < |values| && values[i] <= Stats.Percentile(values, q).value
    ensures exists j :: 0 <= j < |values| && Stats.Percentile(values, q).value <= values[j]
  {
    Stats.PercentileIsQuantile(values, q);
    Stats.QuantileBounds(values, q / 100.0);
  }

  lemma PercentilesDefined(frames: seq<real>)
    ensures Stats.Percentile(frames, 50.0).Ok?
    ensures Stats.Percentile(frames, 95.0).Ok?
    ensures Stats.Percentile(frames, 99.0).Ok?
  {
    if |frames| > 0 {
      PercentileBounds(frames, 50.0);
      PercentileBounds(frames, 95.0);
      PercentileBounds(frames, 99.0);
    }
  }

  datatype Metrics = Metrics(
    stageMs: map<string, real>, fps: real, p50: real, p95: real, p99: real,
    sloBudgetMs: real, sloWithinPct: real, unknownRate: real,
    kbSize: int, backend: string, sdkVersion: string)

  /** `1000 / fmean(frames)`, 0 without frames; a zero mean raises. */
  function Fps(frames: seq<real>): (r: Result<real>)
    ensures r.Ok? <==> |frames| == 0 || Sum(frames) != 0.0
    ensures |frames| == 0 ==> r == Ok(0.0)
    ensures r.Ok? && |frames| > 0 ==> r.value * Mean(frames) == 1000.0
  {
    if |frames| == 0 then Ok(0.0)
    else
      var mean := Mean(frames);
      if mean == 0.0 then Raise(ZeroDivisionError, "float division by zero")
      else Ok(1000.0 / mean)
  }

  /** `m` is the mean of `xs`, and 0 when there is nothing to average. */
  predicate IsMean(m: real, xs: seq<real>) {
    (|xs| == 0 ==> m == 0.0) && (|xs| > 0 ==> m * |xs| as real == Sum(xs))
  }

  /** The mean of each stage and of the overhead; a stage without samples,
      or missing altogether, has mean 0. */
  function StageMeans(frames: seq<real>, stages: map<string, seq<real>>): (r: map<string, real>)
    ensures r.Keys == {"detect", "track", "embed", "match", "overhead"}
    ensures IsMean(r["detect"], Stage(stages, "detect"))
    ensures IsMean(r["track"], Stage(stages, "track"))
    ensures IsMean(r["embed"], Stage(stages, "embed"))
    ensures IsMean(r["match"], Stage(stages, "match"))
    ensures IsMean(r["overhead"], Overheads(frames, stages))
    ensures r["overhead"] == Mean(Overheads(frames, stages))
  {
    map[
      "detect" := Mean(Stage(stages, "detect")),
      "track" := Mean(Stage(stages, "track")),
      "embed" := Mean(Stage(stages, "embed")),
      "match" := Mean(Stage(stages, "match")),
      "overhead" := Mean(Overheads(frames, stages))]
  }

  /** The report on samples already cut. */
  function Report(w: Samples, kbSize: int, backend: string, sdkVersion: string, budget: real): (r: Result<Metrics>)
    ensures r.Ok? <==> Fps(w.perFrameMs).Ok?
    ensures r.Ok? ==> r.value.fps == Fps(w.perFrameMs).value
    ensures r.Ok? ==> Stats.Percentile(w.perFrameMs, 50.0) == Ok(r.value.p50)
    ensures r.Ok? ==> Stats.Percentile(w.perFrameMs, 95.0) == Ok(r.value.p95)
    ensures r.Ok? ==> Stats.Percentile(w.perFrameMs, 99.0) == Ok(r.value.p99)
    ensures r.Ok? ==> r.value.sloWithinPct == WithinPct(w.perFrameMs, budget)
    ensures r.Ok? ==> r.value.unknownRate == UnknownRate(w.unknownFlags)
    ensures r.Ok? ==> r.value.stageMs.Keys == {"detect", "track", "embed", "match", "overhead"}
    ensures r.Ok? ==> r.value.stageMs == StageMeans(w.perFrameMs, w.perStageMs)
    ensures r.Ok? ==> r.value.sloBudgetMs == budget && r.value.kbSize == kbSize
  {
    var frames := w.perFrameMs;
    PercentilesDefined(frames);
    var fps :- Fps(frames);
    var p50 := Stats.Percentile(frames, 50.0).value;
    var p95 := Stats.Percentile(frames, 95.0).value;
    var p99 := Stats.Percentile(frames, 99.0).value;
    Ok(Metrics(StageMeans(frames, w.perStageMs), fps, p50, p95, p99, budget, WithinPct(frames, budget),
      UnknownRate(w.unknownFlags), kbSize, backend, sdkVersion))
  }

  /** `metrics_json(...)`: the report on the samples after the warm-up cut. */
  function MetricsJson(x: Samples, kbSize: int, backend: string, sdkVersion: string,
                       warmup: int, budget: real): (r: Result<Metrics>)
    ensures r.Ok? <==> |Warmup(x, warmup).perFrameMs| == 0 || Sum(Warmup(x, warmup).perFrameMs) != 0.0
  {
    Report(Warmup(x, warmup), kbSize, backend, sdkVersion, budget)
  }

  /** Without frames the report succeeds with fps, percentiles and SLO
      share all 0. */
  lemma MetricsNoFrames(x: Samples, kbSize: int, backend: string, sdkVersion: string, warmup: int, budget: real)
    requires |Warmup(x, warmup).perFrameMs| == 0
    ensures MetricsJson(x, kbSize, backend, sdkVersion, warmup, budget).Ok?
    ensures var m := MetricsJson(x, kbSize, backend, sdkVersion, warmup, budget).value;
      m.fps == 0.0 && m.p50 == 0.0 && m.p95 == 0.0 && m.p99 == 0.0 && m.sloWithinPct == 0.0
  {
  }

  /** With frames kept, p50 is at least one of them and p99 at most one. */
  lemma MetricsPercentilesInRange(x: Samples, kbSize: int, backend: string, sdkVersion: string, warmup: int, budget: real)
    requires MetricsJson(x, kbSize, backend, sdkVersion, warmup, budget).Ok?
    requires |Warmup(x, warmup).perFrameMs| > 0
    ensures var m := MetricsJson(x, kbSize, backend, sdkVersion, warmup, budget).value;
      var frames := Warmup(x, warmup).perFrameMs;
      && (exists i :: 0 <= i < |frames| && frames[i] <= m.p50)
      && (exists j :: 0 <= j < |frames| && m.p99 <= frames[j])
  {
    var frames := Warmup(x, warmup).perFrameMs;
    PercentileBounds(frames, 50.0);
    PercentileBounds(frames, 99.0);
  }

  lemma {:induction false} CountAll(xs: seq<real>, budget: real)
    requires forall i :: 0 <= i < |xs| ==> xs[i] <= budget
    ensures CountWhere(xs, (ms: real) => ms <= budget) == |xs|
    decreases |xs|
  {
    if |xs| > 0 {
      CountAll(xs[..|xs| - 1], budget);
    }
  }

  /** When every kept frame time equals `c`, the three percentiles are `c`. */
  lemma MetricsSteadyPercentiles(x: Samples, kbSize: int, backend: string, sdkVersion: string, warmup: int, budget: real, c: real)
    requires MetricsJson(x, kbSize, backend, sdkVersion, warmup, budget).Ok?
    requires |Warmup(x, warmup).perFrameMs| > 0
    requires forall i :: 0 <= i < |Warmup(x, warmup).perFrameMs| ==> Warmup(x, warmup).perFrameMs[i] == c
    ensures var m := MetricsJson(x, kbSize, backend, sdkVersion, warmup, budget).value;
      m.p50 == c && m.p95 == c && m.p99 == c
  {
    var frames := Warmup(x, warmup).perFrameMs;
    PercentileBounds(frames, 50.0);
    PercentileBounds(frames, 95.0);
    PercentileBounds(frames, 99.0);
  }

  lemma WithinAll(frames: seq<real>, budget: real)
    requires |frames| > 0
    requires forall i :: 0 <= i < |frames| ==> frames[i] <= budget
    ensures WithinPct(frames, budget) == 100.0
  {
    CountAll(frames, budget);
    var n := |frames| as real;
    assert n / n == 1.0;
  }

  /** When every kept frame is within budget, the SLO share is 100%. */
  lemma MetricsAllWithin(x: Samples, kbSize: int, backend: string, sdkVersion: string, warmup: int, budget: real)
    requires MetricsJson(x, kbSize, backend, sdkVersion, warmup, budget).Ok?
    requires |Warmup(x, warmup).perFrameMs| > 0
    requires forall i :: 0 <= i < |Warmup(x, warmup).perFrameMs| ==> Warmup(x, warmup).perFrameMs[i] <= budget
    ensures MetricsJson(x, kbSize, backend, sdkVersion, warmup, budget).value.sloWithinPct == 100.0
  {
    WithinAll(Warmup(x, warmup).perFrameMs, budget);
  }

  /** With every kept frame time positive the report succeeds and its fps is
      positive. */
  lemma MetricsPositiveFps(x: Samples, kbSize: int, backend: string, sdkVersion: string, warmup: int, budget: real)
    requires |Warmup(x, warmup).perFrameMs| > 0
    requires forall i :: 0 <= i < |Warmup(x, warmup).perFrameMs| ==> Warmup(x, warmup).perFrameMs[i] > 0.0
    ensures MetricsJson(x, kbSize, backend, sdkVersion, warmup, budget).Ok?
    ensures MetricsJson(x, kbSize, backend, sdkVersion, warmup, budget).value.fps > 0.0
  {
    var frames := Warmup(x, warmup).perFrameMs;
    SumPositive(frames);
    var mean := Mean(frames);
    if mean <= 0.0 {
      Stats.MulNonneg(-mean, |frames| as real);
    }
    assert mean > 0.0;
  }
}
