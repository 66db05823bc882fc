/** The unknowns false-accept guard: the share of benchmark samples that were
    unknown by ground truth yet accepted, and the check that fails when that
    share exceeds a threshold. Reading the JSONL file is left out: the guard
    receives the decoded rows. */
module Guards {
  import opened Base
  import Json
  import Stats

  /** A sample counts when both `is_unknown_truth` and `accepted` are truthy;
      a missing key reads as None, which is falsy. */
  predicate FalseAccept(sample: Json.Value) {
    Json.Truthy(Json.Get(sample, "is_unknown_truth")) && Json.Truthy(Json.Get(sample, "accepted"))
  }

  /** The loop of `unknowns_false_accept_rate`: `(total, false_accepts)`.
      `sample.get` on a row that is not a dict raises AttributeError. */
  function Tally(samples: seq<Json.Value>): (r: Result<(nat, nat)>)
    decreases |samples|
  {
    if |samples| == 0 then Ok((0, 0))
    else
      var (total, hits) :- Tally(samples[..|samples| - 1]);
      var last := samples[|samples| - 1];
      if !last.Dict? then Raise(AttributeError, "object has no attribute 'get'")
      else Ok((total + 1, hits + (if FalseAccept(last) then 1 else 0)))
  }

  /** The tally fails exactly when some row is not a dict; otherwise it
      counts the rows and the false accepts among them. */
  lemma {:induction false} TallySpec(samples: seq<Json.Value>)
    ensures Tally(samples).Ok? <==> forall i :: 0 <= i < |samples| ==> samples[i].Dict?
    ensures Tally(samples).Ok? ==> Tally(samples).value == (|samples|, CountWhere(samples, FalseAccept))
    ensures Tally(samples).Err? ==> Tally(samples).error.kind == AttributeError
    decreases |samples|
  {
    if |samples| > 0 {
      var init := samples[..|samples| - 1];
      TallySpec(init);
      assert forall i :: 0 <= i < |init| ==> init[i] == samples[i];
    }
  }

  /** `unknowns_false_accept_rate(samples)`: 0 without samples, else the
      share of false accepts. */
  function Rate(samples: seq<Json.Value>): (r: Result<real>)
    ensures r.Ok? <==> forall i :: 0 <= i < |samples| ==> samples[i].Dict?
    ensures r.Ok? && |samples| == 0 ==> r.value == 0.0
    ensures r.Ok? && |samples| > 0 ==> r.value * |samples| as real == CountWhere(samples, FalseAccept) as real
    ensures r.Ok? ==> 0.0 <= r.value <= 1.0
  {
    TallySpec(samples);
    var (total, hits) :- Tally(samples);
    if total == 0 then Ok(0.0)
    else
      Stats.Fraction(hits, total);
      Ok(hits as real / total as real)
  }

  const DefaultThreshold: real := 0.025

  /** `unknowns_false_accept_guard` on decoded rows: AssertionError exactly
      when the rate is above the threshold. */
  function Guard(samples: seq<Json.Value>, threshold: real): (r: Result<()>)
    ensures r.Ok? <==> Rate(samples).Ok? && Rate(samples).value <= threshold
    ensures r.Err? && Rate(samples).Ok? ==> r.error.kind == AssertionError
  {
    var rate :- Rate(samples);
    if rate > threshold then Raise(AssertionError, "unknowns false-accept rate exceeds threshold")
    else Ok(())
  }

  /** Dict rows none of which is a false accept never trip a non-negative
      threshold. */
  lemma {:induction false} NoFlagsPass(samples: seq<Json.Value>, threshold: real)
    requires forall i :: 0 <= i < |samples| ==> samples[i].Dict? && !FalseAccept(samples[i])
    requires threshold >= 0.0
    ensures Guard(samples, threshold).Ok?
  {
    NoneCounted(samples);
  }

  lemma {:induction false} NoneCounted(samples: seq<Json.Value>)
    requires forall i :: 0 <= i < |samples| ==> !FalseAccept(samples[i])
    ensures CountWhere(samples, FalseAccept) == 0
    decreases |samples|
  {
    if |samples| > 0 {
      NoneCounted(samples[..|samples| - 1]);
    }
  }

  /** A row missing `accepted` is not a false accept, whatever its truth. */
  lemma MissingFlagIsNotFalseAccept(entries: seq<(string, Json.Value)>)
    requires !Json.HasKey(entries, "accepted")
    ensures !FalseAccept(Json.Dict(entries))
  {
  }
}
