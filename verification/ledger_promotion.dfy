/** The promotion report of the knowledge-base promotion script: every
    evidence-ledger row is either promoted (known truth and a score of at
    least `CUTOFF`) or refused with a reason. Reading the ledger file and
    writing the report are left out; the rows arrive decoded. */
module LedgerPromotion {
  import opened Base
  import opened PyFloat
  import Json

  const Cutoff: real := 0.5

  /** `_coerce_score`: `float(value)`, or None when that raises TypeError or
      ValueError or gives NaN. */
  function CoerceScore(v: Json.Value): (r: Option<Float>)
    ensures r.None? <==> Json.ToFloat(v).Err? || Json.ToFloat(v).value.NaN?
    ensures r.Some? ==> r.value == Json.ToFloat(v).value && !r.value.NaN?
    ensures v.Null? || v.List? || v.Dict? ==> r.None?
    ensures v.Int? ==> r == Some(Finite(v.i as real))
  {
    match Json.ToFloat(v)
    case Err(_) => None
    case Ok(f) => if f.NaN? then None else Some(f)
  }

  datatype Promotion = Promotion(queryId: Json.Value, pickedQid: Json.Value, score: Float)
  datatype Refusal = Refusal(queryId: Json.Value, reason: string)
  datatype Report = Report(promotions: seq<Promotion>, reasons: seq<Refusal>)

  /** What the loop does with one row. */
  datatype Verdict = Promote(p: Promotion) | Refuse(r: Refusal)

  function Decide(row: Json.Value): (v: Verdict)
    ensures Json.Truthy(Json.Get(row, "is_unknown_truth")) ==> v == Refuse(Refusal(Json.Get(row, "query_id"), "unknown-truth"))
    ensures v.Promote? ==> v.p.queryId == Json.Get(row, "query_id") && v.p.pickedQid == Json.Get(row, "picked_qid")
    ensures v.Promote? ==> CoerceScore(Json.Get(row, "score")) == Some(v.p.score)
  {
    var queryId := Json.Get(row, "query_id");
    var picked := Json.Get(row, "picked_qid");
    var score := CoerceScore(Json.Get(row, "score"));
    if Json.Truthy(Json.Get(row, "is_unknown_truth")) then Refuse(Refusal(queryId, "unknown-truth"))
    else if score.None? || Lt(score.value, Finite(Cutoff)) then Refuse(Refusal(queryId, "score<0.5"))
    else Promote(Promotion(queryId, picked, score.value))
  }

  /** A row is promoted exactly when its truth is not unknown and its score
      is a number (not NaN) of at least the cutoff. */
  lemma DecideSpec(row: Json.Value)
    ensures Decide(row).Promote? <==>
      && !Json.Truthy(Json.Get(row, "is_unknown_truth"))
      && CoerceScore(Json.Get(row, "score")).Some?
      && Le(Finite(Cutoff), CoerceScore(Json.Get(row, "score")).value)
  {
    var s := CoerceScore(Json.Get(row, "score"));
    if s.Some? {
      LeTotalOffNaN(Finite(Cutoff), s.value);
    }
  }

  /** The loop over the ledger rows. */
  function BuildReport(rows: seq<Json.Value>): Report
    decreases |rows|
  {
    if |rows| == 0 then Report([], [])
    else
      var rep := BuildReport(rows[..|rows| - 1]);
      match Decide(rows[|rows| - 1])
      case Promote(p) => rep.(promotions := rep.promotions + [p])
      case Refuse(r) => rep.(reasons := rep.reasons + [r])
  }

  /** The verdict on each row. */
  function Verdicts(rows: seq<Json.Value>): (vs: seq<Verdict>)
    ensures |vs| == |rows| && forall i :: 0 <= i < |rows| ==> vs[i] == Decide(rows[i])
  {
    seq(|rows|, i requires 0 <= i < |rows| => Decide(rows[i]))
  }

  /** The promotions among the verdicts, in ledger order. */
  function PromotedOf(vs: seq<Verdict>): seq<Promotion>
    decreases |vs|
  {
    if |vs| == 0 then []
    else if vs[0].Promote? then [vs[0].p] + PromotedOf(vs[1..])
    else PromotedOf(vs[1..])
  }

  /** The refusals among the verdicts, in ledger order. */
  function RefusedOf(vs: seq<Verdict>): seq<Refusal>
    decreases |vs|
  {
    if |vs| == 0 then []
    else if vs[0].Promote? then RefusedOf(vs[1..])
    else [vs[0].r] + RefusedOf(vs[1..])
  }

  lemma {:induction false} SplitAppend(a: seq<Verdict>, b: seq<Verdict>)
    ensures PromotedOf(a + b) == PromotedOf(a) + PromotedOf(b)
    ensures RefusedOf(a + b) == RefusedOf(a) + RefusedOf(b)
    decreases |a|
  {
    if |a| > 0 {
      assert (a + b)[0] == a[0];
      assert (a + b)[1..] == a[1..] + b;
      SplitAppend(a[1..], b);
    } else {
      assert a + b == b;
    }
  }

  /** The report splits the ledger: its promotions are those of the promoted
      rows and its refusals those of the others, each in ledger order, so
      every row lands in exactly one list. */
  lemma {:induction false} BuildReportSpec(rows: seq<Json.Value>)
    ensures BuildReport(rows).promotions == PromotedOf(Verdicts(rows))
    ensures BuildReport(rows).reasons == RefusedOf(Verdicts(rows))
    ensures |BuildReport(rows).promotions| + |BuildReport(rows).reasons| == |rows|
    decreases |rows|
  {
    if |rows| > 0 {
      var init := rows[..|rows| - 1];
      var v := Decide(rows[|rows| - 1]);
      BuildReportSpec(init);
      VerdictsSnoc(rows);
      SplitAppend(Verdicts(init), [v]);
      SingleVerdict(v);
    }
  }

  lemma VerdictsSnoc(rows: seq<Json.Value>)
    requires |rows| > 0
    ensures Verdicts(rows) == Verdicts(rows[..|rows| - 1]) + [Decide(rows[|rows| - 1])]
  {
  }

  lemma SingleVerdict(v: Verdict)
    ensures PromotedOf([v]) == if v.Promote? then [v.p] else []
    ensures RefusedOf([v]) == if v.Promote? then [] else [v.r]
  {
    assert [v][1..] == [];
  }

  /** Every promotion carries a score of at least the cutoff; every row with
      a truthy `is_unknown_truth` is refused as unknown truth. */
  lemma PromotionsAboveCutoff(rows: seq<Json.Value>)
    ensures forall i :: 0 <= i < |BuildReport(rows).promotions| ==>
      Le(Finite(Cutoff), BuildReport(rows).promotions[i].score)
    ensures forall i :: 0 <= i < |rows| && Json.Truthy(Json.Get(rows[i], "is_unknown_truth")) ==>
      Refusal(Json.Get(rows[i], "query_id"), "unknown-truth") in BuildReport(rows).reasons
  {
    PromotionsScored(rows);
    UnknownTruthRefused(rows);
  }

  lemma {:induction false} PromotionsScored(rows: seq<Json.Value>)
    ensures forall i :: 0 <= i < |BuildReport(rows).promotions| ==>
      Le(Finite(Cutoff), BuildReport(rows).promotions[i].score)
    decreases |rows|
  {
    if |rows| > 0 {
      PromotionsScored(rows[..|rows| - 1]);
      DecideSpec(rows[|rows| - 1]);
    }
  }

  lemma {:induction false} UnknownTruthRefused(rows: seq<Json.Value>)
    ensures forall i :: 0 <= i < |rows| && Json.Truthy(Json.Get(rows[i], "is_unknown_truth")) ==>
      Refusal(Json.Get(rows[i], "query_id"), "unknown-truth") in BuildReport(rows).reasons
    decreases |rows|
  {
    if |rows| > 0 {
      var init := rows[..|rows| - 1];
      UnknownTruthRefused(init);
      assert forall i :: 0 <= i < |init| ==> rows[i] == init[i];
    }
  }

  /** Without a ledger file the report holds one refusal, `no-ledger`. */
  function NoLedger(): (r: Report)
    ensures |r.promotions| == 0 && |r.reasons| == 1
  {
    Report([], [Refusal(Json.Null, "no-ledger")])
  }
}
