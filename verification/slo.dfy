/** The service-level gates of the benchmarks: `assert_slo` reads four
    metrics from the offline and end-to-end statistics and raises when one is
    missing, is not a number, or misses its gate. */
module Slo {
  import opened Base
  import opened PyFloat
  import Json

  /** `SLOGates`: the recall and p@1 floors, the p95 ceilings. */
  datatype Gates = Gates(offlineRecall: Float, offlineP95Ms: Float, e2ePAt1: Float, e2eP95Ms: Float)

  function DefaultGates(): (g: Gates)
    ensures g.offlineRecall == Finite(0.95) && g.offlineP95Ms == Finite(10.0)
    ensures g.e2ePAt1 == Finite(0.80) && g.e2eP95Ms == Finite(33.0)
  {
    Gates(Finite(0.95), Finite(10.0), Finite(0.80), Finite(33.0))
  }

  /** An `int` or a `float`, but not a `bool`. */
  predicate Numeric(v: Json.Value) {
    v.Int? || v.Float?
  }

  function AsFloat(v: Json.Value): Float
    requires Numeric(v)
  {
    if v.Int? then Finite(v.i as real) else v.f
  }

  /** `_coerce_metric(metrics, key)`. */
  function CoerceMetric(metrics: seq<(string, Json.Value)>, key: string): (r: Result<Float>)
    ensures r.Ok? <==> Json.HasKey(metrics, key) && Numeric(Json.Lookup(metrics, key).value)
    ensures r.Ok? ==> r.value == AsFloat(Json.Lookup(metrics, key).value)
    ensures !Json.HasKey(metrics, key) ==> r.Err? && r.error.kind == KeyError
    ensures Json.HasKey(metrics, key) && r.Err? ==> r.error.kind == TypeError
  {
    match Json.Lookup(metrics, key)
    case None => Raise(KeyError, "missing metric: " + key)
    case Some(v) =>
      if !Numeric(v) then Raise(TypeError, "metric must be numeric")
      else Ok(AsFloat(v))
  }

  /** The value `p_at_1` resolves to: `e2e_stats.get("p_at_1")`, falling
      back to `"p@1"` when that is None. */
  function PAt1Value(e2e: seq<(string, Json.Value)>): Json.Value {
    var v := Json.Lookup(e2e, "p_at_1").GetOr(Json.Null);
    if v.Null? && Json.HasKey(e2e, "p@1") then Json.Lookup(e2e, "p@1").value else v
  }

  /** Reading `p_at_1`: KeyError when both spellings are absent or None,
      TypeError when the value found is not a number. */
  function PAt1(e2e: seq<(string, Json.Value)>): (r: Result<Float>)
    ensures r.Ok? <==> Numeric(PAt1Value(e2e))
    ensures r.Ok? ==> r.value == AsFloat(PAt1Value(e2e))
    ensures r.Err? ==> (r.error.kind == KeyError <==> PAt1Value(e2e).Null?)
  {
    var v := PAt1Value(e2e);
    if v.Null? then Raise(KeyError, "missing metric: p_at_1")
    else if !Numeric(v) then Raise(TypeError, "metric 'p_at_1' must be numeric")
    else Ok(AsFloat(v))
  }

  /** `p@1` is read only when `p_at_1` is missing or None; a numeric
      `p_at_1` wins. */
  lemma PAt1Fallback(e2e: seq<(string, Json.Value)>)
    ensures Json.HasKey(e2e, "p_at_1") && Numeric(Json.Lookup(e2e, "p_at_1").value) ==>
      PAt1(e2e) == Ok(AsFloat(Json.Lookup(e2e, "p_at_1").value))
    ensures !Json.HasKey(e2e, "p_at_1") && Json.HasKey(e2e, "p@1") ==>
      PAt1Value(e2e) == Json.Lookup(e2e, "p@1").value
    ensures !Json.HasKey(e2e, "p_at_1") && !Json.HasKey(e2e, "p@1") ==>
      PAt1(e2e).Err? && PAt1(e2e).error.kind == KeyError
  {
  }

  /** Every metric is present and numeric. */
  predicate Readable(offline: seq<(string, Json.Value)>, e2e: seq<(string, Json.Value)>) {
    CoerceMetric(offline, "candidate_at_k_recall").Ok? && CoerceMetric(offline, "p95_ms").Ok?
    && PAt1(e2e).Ok? && CoerceMetric(e2e, "e2e_p95_ms").Ok?
  }

  /** The four gates hold on readable metrics. A comparison with NaN is
      false, so a NaN metric misses no gate. */
  predicate Meets(offline: seq<(string, Json.Value)>, e2e: seq<(string, Json.Value)>, g: Gates)
    requires Readable(offline, e2e)
  {
    && !Lt(CoerceMetric(offline, "candidate_at_k_recall").value, g.offlineRecall)
    && !Lt(g.offlineP95Ms, CoerceMetric(offline, "p95_ms").value)
    && !Lt(PAt1(e2e).value, g.e2ePAt1)
    && !Lt(g.e2eP95Ms, CoerceMetric(e2e, "e2e_p95_ms").value)
  }

  /** `assert_slo(offline_stats=..., e2e_stats=..., gates=...)`. */
  function AssertSlo(offline: seq<(string, Json.Value)>, e2e: seq<(string, Json.Value)>, g: Gates): (r: Result<()>)
    ensures r.Ok? <==> Readable(offline, e2e) && Meets(offline, e2e, g)
    ensures r.Err? && r.error.kind == AssertionError <==> Readable(offline, e2e) && !Meets(offline, e2e, g)
  {
    var recall :- CoerceMetric(offline, "candidate_at_k_recall");
    var lookupP95 :- CoerceMetric(offline, "p95_ms");
    var pAt1 :- PAt1(e2e);
    var e2eP95 :- CoerceMetric(e2e, "e2e_p95_ms");
    if Lt(recall, g.offlineRecall) then Raise(AssertionError, "offline recall below gate")
    else if Lt(g.offlineP95Ms, lookupP95) then Raise(AssertionError, "offline p95 above gate")
    else if Lt(pAt1, g.e2ePAt1) then Raise(AssertionError, "p@1 below gate")
    else if Lt(g.e2eP95Ms, e2eP95) then Raise(AssertionError, "e2e p95 above gate")
    else Ok(())
  }

  /** With the default gates and finite metrics the check passes exactly when
      recall >= 0.95, lookup p95 <= 10, p@1 >= 0.80 and e2e p95 <= 33. */
  lemma DefaultGatesMeaning(offline: seq<(string, Json.Value)>, e2e: seq<(string, Json.Value)>,
                            recall: real, lookupP95: real, pAt1: real, e2eP95: real)
    requires CoerceMetric(offline, "candidate_at_k_recall") == Ok(Finite(recall))
    requires CoerceMetric(offline, "p95_ms") == Ok(Finite(lookupP95))
    requires PAt1(e2e) == Ok(Finite(pAt1))
    requires CoerceMetric(e2e, "e2e_p95_ms") == Ok(Finite(e2eP95))
    ensures AssertSlo(offline, e2e, DefaultGates()).Ok? <==>
      recall >= 0.95 && lookupP95 <= 10.0 && pAt1 >= 0.80 && e2eP95 <= 33.0
  {
  }

  /** A missing recall is reported before anything else is looked at. */
  lemma MissingRecallFirst(offline: seq<(string, Json.Value)>, e2e: seq<(string, Json.Value)>, g: Gates)
    requires !Json.HasKey(offline, "candidate_at_k_recall")
    ensures AssertSlo(offline, e2e, g) == Raise(KeyError, "missing metric: candidate_at_k_recall")
  {
  }

  /** A boolean metric is refused even though Python's `bool` is an `int`. */
  lemma BoolRefused(e2e: seq<(string, Json.Value)>, b: bool)
    requires Json.HasKey(e2e, "e2e_p95_ms") && Json.Lookup(e2e, "e2e_p95_ms").value == Json.Bool(b)
    ensures CoerceMetric(e2e, "e2e_p95_ms").Err? && CoerceMetric(e2e, "e2e_p95_ms").error.kind == TypeError
  {
  }
}
