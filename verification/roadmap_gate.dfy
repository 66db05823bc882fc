/** The gate of the roadmap checker: every parsed stage is skipped, fails or
    passes against a table of named signals, and the run fails when the lock
    file disagrees with the roadmap or any stage fails. The signal checks read
    files and run tools: what each returns or raises arrives as a function
    `checks`, and whether an artifact path exists as a function `present`. The metric
    thresholds check and `_to_float` are modelled on decoded JSON values. */
module RoadmapGate {
  import opened Base
  import opened Text
  import opened PyFloat
  import Json
  import opened RoadmapParse

  // ---------------------------------------------------------------------------
  // _to_float

  /** `_to_float(value)`: a number (a bool counts as an int) or a string that
      `float` accepts, and None for None, NaN, unparsable text and anything
      else. */
  function NumberOf(v: Json.Value): (r: Option<Float>)
    ensures r.Some? ==> !r.value.NaN?
    ensures v.Null? || v.List? || v.Dict? ==> r.None?
  {
    match v
    case Null => None
    case Bool(b) => Some(Finite(if b then 1.0 else 0.0))
    case Int(i) => Some(Finite(i as real))
    case Float(f) => if f.NaN? then None else Some(f)
    case Str(s) =>
      (match ParseFloat(Strip(s))
       case None => None
       case Some(f) => if f.NaN? then None else Some(f))
    case List(_) => None
    case Dict(_) => None
  }

  /** `float()` strips surrounding whitespace itself, so stripping first
      changes nothing. */
  lemma ParseFloatStripped(s: string)
    ensures ParseFloat(Strip(s)) == ParseFloat(s)
  {
    TrimByIdempotent(s, IsSpace);
  }

  /** `_to_float` is Python's `float()` with every failure and NaN turned
      into None. */
  lemma NumberOfIsFloat(v: Json.Value)
    ensures NumberOf(v).Some? <==> Json.ToFloat(v).Ok? && !Json.ToFloat(v).value.NaN?
    ensures NumberOf(v).Some? ==> NumberOf(v).value == Json.ToFloat(v).value
  {
    if v.Str? {
      ParseFloatStripped(v.s);
    }
  }

  // ---------------------------------------------------------------------------
  // _check_thresholds_met

  /** `d.get(key, default)` on a dict's entries. */
  function GetOr(entries: seq<(string, Json.Value)>, key: string, default: Json.Value): (v: Json.Value)
    ensures Json.HasKey(entries, key) ==> v == Json.Lookup(entries, key).value
    ensures !Json.HasKey(entries, key) ==> v == default
  {
    Json.Lookup(entries, key).GetOr(default)
  }

  const Huge: real := 1000000000.0

  /** `float(x)` where `x` is a value read from a decoded JSON file. */
  function FloatOf(v: Json.Value): (r: Result<Float>)
    ensures v.Int? ==> r == Ok(Finite(v.i as real))
    ensures v.Bool? ==> r == Ok(Finite(if v.b then 1.0 else 0.0))
    ensures v.Null? || v.List? || v.Dict? ==> r.Err? && r.error.kind == TypeError
    ensures v.Str? ==> (r.Ok? <==> ParseFloat(v.s).Some?)
  {
    Json.ToFloat(v)
  }

  /** The offline p95 the check compares: `1e9` when the statistics file is
      missing, else its `p95_ms` entry. */
  function OfflineP95(offline: Option<Json.Value>): (r: Result<Float>)
    ensures offline.None? ==> r == Ok(Finite(Huge))
    ensures offline.Some? && !offline.value.Dict? ==> r.Err? && r.error.kind == AttributeError
  {
    if offline.None? then Ok(Finite(Huge))
    else if !offline.value.Dict? then Raise(AttributeError, "object has no attribute 'get'")
    else FloatOf(GetOr(offline.value.entries, "p95_ms", Json.Float(Finite(Huge))))
  }

  /** The five numbers the check compares, when they all read. */
  datatype Readings = Readings(recall: Float, e2eP95: Float, pAt1: Float, unknownFa: Float, offlineP95: Float)

  /** The readings in the order `_check_thresholds_met` reads them: recall, e2e p95,
      p@1, false-accept rate, then the offline p95. `p_at_1` falls back to `p@1`
      only when the key is absent; a `null` value reaches `float` and raises
      TypeError. */
  function Read(summary: seq<(string, Json.Value)>, offline: Option<Json.Value>): Result<Readings> {
    var recall :- FloatOf(GetOr(summary, "candidate_at_k_recall", Json.Float(Finite(0.0))));
    var e2eP95 :- FloatOf(GetOr(summary, "e2e_p95_ms", Json.Float(Finite(Huge))));
    var pAt1 :- FloatOf(GetOr(summary, "p_at_1", GetOr(summary, "p@1", Json.Float(Finite(0.0)))));
    var unknownFa :- FloatOf(GetOr(summary, "unknown_false_accept_rate", Json.Float(Finite(1.0))));
    var offlineP95 :- OfflineP95(offline);
    Ok(Readings(recall, e2eP95, pAt1, unknownFa, offlineP95))
  }

  /** The five comparisons; any comparison with NaN is false. */
  predicate Meets(m: Readings) {
    && Le(Finite(0.95), m.recall)
    && Le(Finite(0.80), m.pAt1)
    && Le(m.e2eP95, Finite(33.0))
    && Le(m.offlineP95, Finite(33.0))
    && Le(m.unknownFa, Finite(0.025))
  }

  /** `_check_thresholds_met()` on the decoded summary and offline statistics
      files (None for a missing file). */
  function ThresholdsMet(summary: Option<Json.Value>, offline: Option<Json.Value>): (r: Result<bool>)
    ensures summary.None? ==> r == Ok(false)
    ensures summary.Some? && !summary.value.Dict? ==> r.Err? && r.error.kind == AttributeError
    ensures r == Ok(true) ==> summary.Some? && offline.Some?
  {
    if summary.None? then Ok(false)
    else if !summary.value.Dict? then Raise(AttributeError, "object has no attribute 'get'")
    else
      var m :- Read(summary.value.entries, offline);
      Ok(Meets(m))
  }

  /** With every metric present as a finite number the check passes exactly
      when recall >= 0.95, p@1 >= 0.80, both p95 values <= 33 ms and the
      unknown false-accept rate <= 0.025. */
  lemma ThresholdsMeaning(summary: seq<(string, Json.Value)>, offline: seq<(string, Json.Value)>,
                          recall: real, e2eP95: real, pAt1: real, unknownFa: real, offlineP95: real)
    requires Json.Lookup(summary, "candidate_at_k_recall") == Some(Json.Float(Finite(recall)))
    requires Json.Lookup(summary, "e2e_p95_ms") == Some(Json.Float(Finite(e2eP95)))
    requires Json.Lookup(summary, "p_at_1") == Some(Json.Float(Finite(pAt1)))
    requires Json.Lookup(summary, "unknown_false_accept_rate") == Some(Json.Float(Finite(unknownFa)))
    requires Json.Lookup(offline, "p95_ms") == Some(Json.Float(Finite(offlineP95)))
    ensures ThresholdsMet(Some(Json.Dict(summary)), Some(Json.Dict(offline))) ==
      Ok(recall >= 0.95 && pAt1 >= 0.80 && e2eP95 <= 33.0 && offlineP95 <= 33.0 && unknownFa <= 0.025)
  {
    ReadPresent(summary, "candidate_at_k_recall", Json.Float(Finite(0.0)), recall);
    ReadPresent(summary, "e2e_p95_ms", Json.Float(Finite(Huge)), e2eP95);
    ReadPresent(summary, "p_at_1", GetOr(summary, "p@1", Json.Float(Finite(0.0))), pAt1);
    ReadPresent(summary, "unknown_false_accept_rate", Json.Float(Finite(1.0)), unknownFa);
    ReadPresent(offline, "p95_ms", Json.Float(Finite(Huge)), offlineP95);
    var m := Readings(Finite(recall), Finite(e2eP95), Finite(pAt1), Finite(unknownFa), Finite(offlineP95));
    ReadAll(summary, Some(Json.Dict(offline)), m);
    ThresholdsOfReadings(summary, Some(Json.Dict(offline)), m);
    MeetsFinite(recall, e2eP95, pAt1, unknownFa, offlineP95);
  }

  lemma ThresholdsOfReadings(summary: seq<(string, Json.Value)>, offline: Option<Json.Value>, m: Readings)
    requires Read(summary, offline) == Ok(m)
    ensures ThresholdsMet(Some(Json.Dict(summary)), offline) == Ok(Meets(m))
  {
  }

  lemma MeetsFinite(recall: real, e2eP95: real, pAt1: real, unknownFa: real, offlineP95: real)
    ensures Meets(Readings(Finite(recall), Finite(e2eP95), Finite(pAt1), Finite(unknownFa), Finite(offlineP95))) <==>
      recall >= 0.95 && pAt1 >= 0.80 && e2eP95 <= 33.0 && offlineP95 <= 33.0 && unknownFa <= 0.025
  {
  }

  lemma ReadAll(summary: seq<(string, Json.Value)>, offline: Option<Json.Value>, m: Readings)
    requires FloatOf(GetOr(summary, "candidate_at_k_recall", Json.Float(Finite(0.0)))) == Ok(m.recall)
    requires FloatOf(GetOr(summary, "e2e_p95_ms", Json.Float(Finite(Huge)))) == Ok(m.e2eP95)
    requires FloatOf(GetOr(summary, "p_at_1", GetOr(summary, "p@1", Json.Float(Finite(0.0))))) == Ok(m.pAt1)
    requires FloatOf(GetOr(summary, "unknown_false_accept_rate", Json.Float(Finite(1.0)))) == Ok(m.unknownFa)
    requires OfflineP95(offline) == Ok(m.offlineP95)
    ensures Read(summary, offline) == Ok(m)
  {
  }

  lemma ReadPresent(entries: seq<(string, Json.Value)>, key: string, default: Json.Value, x: real)
    requires Json.Lookup(entries, key) == Some(Json.Float(Finite(x)))
    ensures FloatOf(GetOr(entries, key, default)) == Ok(Finite(x))
  {
  }

  /** Without the offline statistics file the offline p95 is `1e9`, so the
      check never passes. */
  lemma NoOfflineStatsFails(summary: Option<Json.Value>)
    ensures ThresholdsMet(summary, None) != Ok(true)
  {
  }

  /** Unlike the benchmark SLO gate, a `p_at_1` that is present but null is
      not replaced by `p@1`: `float(None)` raises TypeError. */
  lemma NullPAt1Raises(summary: seq<(string, Json.Value)>, offline: Option<Json.Value>)
    requires !Json.HasKey(summary, "candidate_at_k_recall") && !Json.HasKey(summary, "e2e_p95_ms")
    requires Json.Lookup(summary, "p_at_1") == Some(Json.Null)
    ensures ThresholdsMet(Some(Json.Dict(summary)), offline).Err?
    ensures ThresholdsMet(Some(Json.Dict(summary)), offline).error.kind == TypeError
  {
    assert Read(summary, offline).Err? && Read(summary, offline).error.kind == TypeError;
  }

  // ---------------------------------------------------------------------------
  // Signals

  /** The keys of `SIGNAL_CHECKS`, in table order. */
  const SignalNames: seq<string> := [
    "signature_valid_or_blocked", "purity_clean", "pdf_deterministic", "append_only_ok",
    "ledger_tip_ok", "determinism_ok", "thresholds_met", "tests_green", "evidence_present",
    "candidate_recall_ok", "p95_ms_ok", "promotion_thresholds_met", "slo_thresholds_met",
    "metrics_schema_valid", "ci_matrix_ok", "sbom_ok", "licenses_ok", "recall_ok",
    "public_api_ok", "config_precedence_ok", "gallery_audit_ok", "release_hygiene_ok",
    "exit_gates_ok"]

  const LockOk: string := "lock_ok"

  /** `lock_ok` is a signal of its own, set from the lock file, and not a
      key of the check table. */
  lemma LockOkNotACheck()
    ensures LockOk !in SignalNames && |SignalNames| == 23
  {
  }

  /** `_evaluate_signal(name)`, with what each check returns or raises given
      by `checks`. */
  function EvaluateSignal(name: string, checks: string -> Result<bool>): (r: Result<bool>)
    ensures name in SignalNames ==> r == checks(name)
    ensures name !in SignalNames ==> r.Err? && r.error.kind == RoadmapError
  {
    LockOkNotACheck();
    if name == LockOk then Raise(RoadmapError, "lock_ok evaluated before assignment")
    else if name !in SignalNames then Raise(RoadmapError, "no check implemented for pass_when key: " + name)
    else checks(name)
  }

  /** The order `main` calls the checks in: the table order with
      `purity_clean` moved to the end. */
  const CallOrder: seq<string> := SignalNames[..1] + SignalNames[2..] + ["purity_clean"]

  lemma CallOrderNames()
    ensures forall n :: n in CallOrder <==> n in SignalNames
  {
    assert SignalNames[1] == "purity_clean";
    assert SignalNames == SignalNames[..1] + [SignalNames[1]] + SignalNames[2..];
  }

  /** `e` is what the first check in `names` that raises raises. */
  predicate FirstRaise(names: seq<string>, checks: string -> Result<bool>, e: Error) {
    exists i :: 0 <= i < |names| && checks(names[i]) == Err(e) && forall j :: 0 <= j < i ==> checks(names[j]).Ok?
  }

  /** Calling the checks of `names` one after another, outside any `try`:
      the first that raises ends the run with its error. */
  function CallChecks(names: seq<string>, checks: string -> Result<bool>): (r: Result<map<string, bool>>)
    ensures r.Ok? <==> forall i :: 0 <= i < |names| ==> checks(names[i]).Ok?
    ensures r.Err? ==> FirstRaise(names, checks, r.error)
    ensures r.Ok? ==> forall n :: n in r.value <==> n in names
    ensures r.Ok? ==> forall n :: n in r.value ==> checks(n) == Ok(r.value[n])
    decreases |names|
  {
    if |names| == 0 then Ok(map[])
    else
      var init := names[..|names| - 1];
      var last := names[|names| - 1];
      assert forall i :: 0 <= i < |init| ==> init[i] == names[i];
      assert forall n :: n in names <==> n in init || n == last;
      var m :- CallChecks(init, checks);
      var v :- checks(last);
      Ok(m[last := v])
  }

  /** The table `main` fills before looking at any stage: `lock_ok` and the
      outcome of every check. A check that raises ends `main` there, before
      any gate line is written, with what it raised. */
  function InitialSignals(lockOk: bool, checks: string -> Result<bool>): (r: Result<map<string, bool>>)
    ensures r.Ok? <==> forall n :: n in SignalNames ==> checks(n).Ok?
    ensures r.Err? ==> FirstRaise(CallOrder, checks, r.error)
    ensures r.Ok? ==> forall n :: n in r.value <==> n == LockOk || n in SignalNames
    ensures r.Ok? ==> r.value[LockOk] == lockOk && forall n :: n in SignalNames ==> checks(n) == Ok(r.value[n])
  {
    CallOrderNames();
    LockOkNotACheck();
    var m :- CallChecks(CallOrder, checks);
    Ok(m[LockOk := lockOk])
  }

  /** What the stage loop reads for a check that returned. */
  function Outcomes(checks: string -> Result<bool>): string -> bool {
    n => checks(n).Ok? && checks(n).value
  }

  /** What a `pass_when` key stands for: `lock_ok` is the lock verdict, a
      check name its outcome, and any other key is false. */
  function KeyValue(key: string, lockOk: bool, results: string -> bool): bool {
    if key == LockOk then lockOk else key in SignalNames && results(key)
  }

  /** A signal table agrees with `KeyValue` on every key it holds other than
      `lock_ok` (which the loop never reads from the table), and holds every
      check name. */
  predicate Agrees(signals: map<string, bool>, lockOk: bool, results: string -> bool) {
    && (forall n :: n in SignalNames ==> n in signals)
    && (forall n :: n in signals && n != LockOk ==> signals[n] == KeyValue(n, lockOk, results))
  }

  lemma InitialAgrees(lockOk: bool, checks: string -> Result<bool>)
    ensures InitialSignals(lockOk, checks).Ok? ==>
      Agrees(InitialSignals(lockOk, checks).value, lockOk, Outcomes(checks))
  {
  }

  // ---------------------------------------------------------------------------
  // One stage

  /** What the run reports as failed, in the order it finds it. Message texts
      are not modelled. */
  datatype Failure =
    | MissingInLock(ids: seq<string>)
    | ExtraInLock(ids: seq<string>)
    | ArtifactsNotList(stage: string)
    | MissingArtifacts(stage: string, missing: seq<string>)
    | PassWhenNotList(stage: string)
    | NoCheck(key: string)
    | NotMet(stage: string, keys: seq<string>)

  /** The outcome written to the gate summary for one stage. */
  datatype Verdict =
    | Skip(reason: Field)
    | BadArtifacts
    | BadPassWhen
    | Unmet(keys: seq<string>)
    | Pass

  /** The elements of `xs` that satisfy `p`, in order. */
  function Where(xs: seq<string>, p: string -> bool): (r: seq<string>)
    ensures |r| <= |xs|
    ensures forall x :: x in r <==> x in xs && p(x)
    ensures |r| == 0 <==> forall x :: x in xs ==> !p(x)
    decreases |xs|
  {
    if |xs| == 0 then []
    else
      var rest := Where(xs[..|xs| - 1], p);
      assert forall x :: x in xs <==> x in xs[..|xs| - 1] || x == xs[|xs| - 1];
      if p(xs[|xs| - 1]) then
        var r := rest + [xs[|xs| - 1]];
        assert r[|r| - 1] in r;
        r
      else rest
  }

  /** Python's `bool(value)` on a stage value or a missing one. */
  predicate FieldTruthy(f: Option<Field>) {
    match f
    case None => false
    case Some(Scalar(s)) => |s| > 0
    case Some(Items(xs)) => |xs| > 0
  }

  /** `repr` of a list of strings, each quoted with single quotes. This is
      Python's `repr` only for items without quotes, backslashes or
      unprintable characters: Python switches to double quotes for an item
      holding `'` and escapes the rest, which is not modelled. */
  function ListRepr(xs: seq<string>): string {
    "[" + Joined(xs) + "]"
  }

  function Joined(xs: seq<string>): string
    decreases |xs|
  {
    if |xs| == 0 then ""
    else if |xs| == 1 then "'" + xs[0] + "'"
    else Joined(xs[..|xs| - 1]) + ", '" + xs[|xs| - 1] + "'"
  }

  /** `str(stage.get("id"))`. */
  function StageId(stage: Stage): string {
    match Get(stage, "id")
    case None => "None"
    case Some(Scalar(s)) => s
    case Some(Items(xs)) => ListRepr(xs)
  }

  /** `_ensure_stage_artifacts(stage)`: None when it returns, else what it
      raises. */
  function CheckArtifacts(stage: Stage, present: string -> bool): (r: Option<Failure>)
    ensures r.None? <==> (Get(stage, "artifacts").Some? && Get(stage, "artifacts").value.Items?
                          && forall a :: a in Get(stage, "artifacts").value.items ==> present(a))
  {
    match Get(stage, "artifacts")
    case Some(Items(artifacts)) =>
      var missing := Where(artifacts, a => !present(a));
      if |missing| > 0 then Some(MissingArtifacts(StageId(stage), missing)) else None
    case _ => Some(ArtifactsNotList(StageId(stage)))
  }

  /** The loop state over one stage's `pass_when` keys. */
  datatype Keys = Keys(unsatisfied: seq<string>, failures: seq<Failure>, signals: map<string, bool>)

  /** One key: `lock_ok` reads the lock verdict; a key in the table reads
      it; any other key is evaluated, and when that raises the failure is
      recorded and the key is entered as false, so it is reported once. */
  function KeyStep(st: Keys, key: string, lockOk: bool, results: string -> bool): Keys {
    if key == LockOk then
      if lockOk then st else st.(unsatisfied := st.unsatisfied + [key])
    else if key in st.signals then
      var v := st.signals[key];
      Keys(if v then st.unsatisfied else st.unsatisfied + [key], st.failures, st.signals[key := v])
    else
      match EvaluateSignal(key, n => Ok(results(n)))
      case Ok(v) => Keys(if v then st.unsatisfied else st.unsatisfied + [key], st.failures, st.signals)
      case Err(_) => Keys(st.unsatisfied + [key], st.failures + [NoCheck(key)], st.signals[key := false])
  }

  function RunKeys(st: Keys, keys: seq<string>, lockOk: bool, results: string -> bool): Keys
    decreases |keys|
  {
    if |keys| == 0 then st
    else KeyStep(RunKeys(st, keys[..|keys| - 1], lockOk, results), keys[|keys| - 1], lockOk, results)
  }

  /** Whatever the table holds, the key loop only adds entries to it, and
      adds a failure only for a key it also marks unmet. */
  lemma {:induction false} RunKeysGrows(signals: map<string, bool>, keys: seq<string>, lockOk: bool, results: string -> bool)
    ensures var ks := RunKeys(Keys([], [], signals), keys, lockOk, results);
      && |ks.failures| <= |ks.unsatisfied|
      && signals.Keys <= ks.signals.Keys
    decreases |keys|
  {
    if |keys| > 0 {
      RunKeysGrows(signals, keys[..|keys| - 1], lockOk, results);
    }
  }

  /** The stage body of `main`'s loop: the verdict, the failures it adds and
      the signal table afterwards. */
  function EvaluateStage(stage: Stage, signals: map<string, bool>, lockOk: bool,
                         results: string -> bool, present: string -> bool): (r: (Verdict, seq<Failure>, map<string, bool>))
    ensures |r.1| == 0 <==> r.0.Skip? || r.0.Pass?
    ensures signals.Keys <= r.2.Keys
  {
    var id := StageId(stage);
    var skip := Get(stage, "skip_reason");
    if FieldTruthy(skip) then (Skip(skip.value), [], signals)
    else match CheckArtifacts(stage, present)
      case Some(f) => (BadArtifacts, [f], signals)
      case None =>
        match Get(stage, "pass_when")
        case Some(Items(keys)) =>
          var ks := RunKeys(Keys([], [], signals), keys, lockOk, results);
          RunKeysGrows(signals, keys, lockOk, results);
          if |ks.unsatisfied| > 0 then (Unmet(ks.unsatisfied), ks.failures + [NotMet(id, ks.unsatisfied)], ks.signals)
          else (Pass, ks.failures, ks.signals)
        case _ => (BadPassWhen, [PassWhenNotList(id)], signals)
  }

  /** The verdict a stage deserves, stated without the signal table: skipped
      when its `skip_reason` is truthy; otherwise every artifact must exist,
      `pass_when` must be a list, and the keys whose value is false are the
      unmet ones, in order. */
  function Deserved(stage: Stage, lockOk: bool, results: string -> bool, present: string -> bool): Verdict {
    var skip := Get(stage, "skip_reason");
    if FieldTruthy(skip) then Skip(skip.value)
    else if CheckArtifacts(stage, present).Some? then BadArtifacts
    else match Get(stage, "pass_when")
      case Some(Items(keys)) =>
        var unmet := Where(keys, k => !KeyValue(k, lockOk, results));
        if |unmet| > 0 then Unmet(unmet) else Pass
      case _ => BadPassWhen
  }

  /** The key loop keeps the table in agreement with `KeyValue`, collects
      exactly the keys whose value is false, and adds a failure only for a
      key it also marks unmet. */
  lemma {:induction false} RunKeysSpec(signals: map<string, bool>, keys: seq<string>, lockOk: bool, results: string -> bool)
    requires Agrees(signals, lockOk, results)
    ensures var ks := RunKeys(Keys([], [], signals), keys, lockOk, results);
      && Agrees(ks.signals, lockOk, results)
      && ks.unsatisfied == Where(keys, k => !KeyValue(k, lockOk, results))
      && |ks.failures| <= |ks.unsatisfied|
      && (forall k :: k in keys && k != LockOk ==> k in ks.signals)
    decreases |keys|
  {
    if |keys| > 0 {
      var init := keys[..|keys| - 1];
      var key := keys[|keys| - 1];
      RunKeysSpec(signals, init, lockOk, results);
      var st := RunKeys(Keys([], [], signals), init, lockOk, results);
      KeyStepSpec(st, key, lockOk, results);
      assert forall k :: k in keys <==> k in init || k == key;
    }
  }

  lemma KeyStepSpec(st: Keys, key: string, lockOk: bool, results: string -> bool)
    requires Agrees(st.signals, lockOk, results)
    ensures var r := KeyStep(st, key, lockOk, results);
      && Agrees(r.signals, lockOk, results)
      && r.unsatisfied == (if KeyValue(key, lockOk, results) then st.unsatisfied else st.unsatisfied + [key])
      && |r.failures| <= |st.failures| + (|r.unsatisfied| - |st.unsatisfied|)
      && (key != LockOk ==> key in r.signals)
      && st.signals.Keys <= r.signals.Keys
  {
  }

  /** A stage's evaluation gives the verdict it deserves, whatever earlier
      stages did to the table; it adds failures exactly when it neither skips
      nor passes. */
  lemma EvaluateStageSpec(stage: Stage, signals: map<string, bool>, lockOk: bool,
                          results: string -> bool, present: string -> bool)
    requires Agrees(signals, lockOk, results)
    ensures var (v, fs, signals') := EvaluateStage(stage, signals, lockOk, results, present);
      && v == Deserved(stage, lockOk, results, present)
      && Agrees(signals', lockOk, results)
      && (|fs| == 0 <==> v.Skip? || v.Pass?)
  {
    if !FieldTruthy(Get(stage, "skip_reason")) && CheckArtifacts(stage, present).None? {
      match Get(stage, "pass_when")
      case Some(Items(keys)) =>
        RunKeysSpec(signals, keys, lockOk, results);
      case _ =>
    }
  }

  /** A stage with a truthy `skip_reason` is skipped: no failure and the
      table untouched, whatever its other entries say. */
  lemma SkipWins(stage: Stage, signals: map<string, bool>, lockOk: bool,
                 results: string -> bool, present: string -> bool)
    requires FieldTruthy(Get(stage, "skip_reason"))
    ensures EvaluateStage(stage, signals, lockOk, results, present) ==
      (Skip(Get(stage, "skip_reason").value), [], signals)
  {
  }

  /** A stage whose artifacts all exist and whose `pass_when` is a list
      passes exactly when every key in it is true. */
  lemma StagePasses(stage: Stage, lockOk: bool, results: string -> bool, present: string -> bool, keys: seq<string>)
    requires !FieldTruthy(Get(stage, "skip_reason")) && CheckArtifacts(stage, present).None?
    requires Get(stage, "pass_when") == Some(Items(keys))
    ensures Deserved(stage, lockOk, results, present) == Pass <==>
      forall k :: k in keys ==> KeyValue(k, lockOk, results)
  {
    var unmet := Where(keys, k => !KeyValue(k, lockOk, results));
    if |unmet| > 0 {
      assert unmet[0] in unmet;
    }
  }

  // ---------------------------------------------------------------------------
  // The whole run

  /** A line of the gate summary. */
  datatype GateLine = StageResult(id: string, verdict: Verdict) | ExpectedNotExecuted

  datatype Run = Run(lines: seq<GateLine>, failures: seq<Failure>, signals: map<string, bool>, preS3: bool)

  /** The stage loop of `main`. */
  function RunStages(stages: seq<Stage>, signals: map<string, bool>, lockOk: bool,
                     results: string -> bool, present: string -> bool): (r: Run)
    ensures |r.lines| == |stages|
    decreases |stages|
  {
    if |stages| == 0 then Run([], [], signals, false)
    else
      var prior := RunStages(stages[..|stages| - 1], signals, lockOk, results, present);
      var stage := stages[|stages| - 1];
      var (v, fs, signals') := EvaluateStage(stage, prior.signals, lockOk, results, present);
      Run(prior.lines + [StageResult(StageId(stage), v)], prior.failures + fs, signals',
          prior.preS3 || (FieldTruthy(Get(stage, "skip_reason")) && Get(stage, "skip_reason") == Some(Scalar("pre-S3"))))
  }

  /** A stage passes or is skipped. */
  predicate Clean(v: Verdict) {
    v.Skip? || v.Pass?
  }

  /** Every stage line carries the verdict its stage deserves; the loop adds
      no failure exactly when every stage is clean; the "expected" flag is
      set exactly when some stage is skipped as `pre-S3`. */
  lemma RunStagesSpec(stages: seq<Stage>, signals: map<string, bool>, lockOk: bool,
                      results: string -> bool, present: string -> bool)
    requires Agrees(signals, lockOk, results)
    ensures var r := RunStages(stages, signals, lockOk, results, present);
      && Agrees(r.signals, lockOk, results)
      && (forall i :: 0 <= i < |stages| ==>
            r.lines[i] == StageResult(StageId(stages[i]), Deserved(stages[i], lockOk, results, present)))
      && (|r.failures| == 0 <==> forall i :: 0 <= i < |stages| ==> Clean(Deserved(stages[i], lockOk, results, present)))
      && (r.preS3 <==> exists i :: 0 <= i < |stages| && Get(stages[i], "skip_reason") == Some(Scalar("pre-S3")))
  {
    RunStagesAgree(stages, signals, lockOk, results, present);
    RunStagesLines(stages, signals, lockOk, results, present);
    RunStagesFailures(stages, signals, lockOk, results, present);
    RunStagesPreS3(stages, signals, lockOk, results, present);
  }

  /** One turn of the stage loop, over the table the earlier stages left. */
  lemma RunStagesStep(stages: seq<Stage>, signals: map<string, bool>, lockOk: bool,
                      results: string -> bool, present: string -> bool)
    requires |stages| > 0
    requires Agrees(RunStages(stages[..|stages| - 1], signals, lockOk, results, present).signals, lockOk, results)
    ensures var prior := RunStages(stages[..|stages| - 1], signals, lockOk, results, present);
      var r := RunStages(stages, signals, lockOk, results, present);
      var last := stages[|stages| - 1];
      && Agrees(r.signals, lockOk, results)
      && r.lines == prior.lines + [StageResult(StageId(last), Deserved(last, lockOk, results, present))]
      && (|r.failures| == 0 <==> |prior.failures| == 0 && Clean(Deserved(last, lockOk, results, present)))
  {
    var prior := RunStages(stages[..|stages| - 1], signals, lockOk, results, present);
    EvaluateStageSpec(stages[|stages| - 1], prior.signals, lockOk, results, present);
  }

  lemma {:induction false} RunStagesAgree(stages: seq<Stage>, signals: map<string, bool>, lockOk: bool,
                                          results: string -> bool, present: string -> bool)
    requires Agrees(signals, lockOk, results)
    ensures Agrees(RunStages(stages, signals, lockOk, results, present).signals, lockOk, results)
    decreases |stages|
  {
    if |stages| > 0 {
      RunStagesAgree(stages[..|stages| - 1], signals, lockOk, results, present);
      RunStagesStep(stages, signals, lockOk, results, present);
    }
  }

  lemma {:induction false} RunStagesLines(stages: seq<Stage>, signals: map<string, bool>, lockOk: bool,
                                          results: string -> bool, present: string -> bool)
    requires Agrees(signals, lockOk, results)
    ensures var r := RunStages(stages, signals, lockOk, results, present);
      forall i :: 0 <= i < |stages| ==>
        r.lines[i] == StageResult(StageId(stages[i]), Deserved(stages[i], lockOk, results, present))
    decreases |stages|
  {
    if |stages| > 0 {
      var init := stages[..|stages| - 1];
      RunStagesLines(init, signals, lockOk, results, present);
      RunStagesAgree(init, signals, lockOk, results, present);
      RunStagesStep(stages, signals, lockOk, results, present);
      assert forall i :: 0 <= i < |init| ==> stages[i] == init[i];
    }
  }

  lemma {:induction false} RunStagesFailures(stages: seq<Stage>, signals: map<string, bool>, lockOk: bool,
                                             results: string -> bool, present: string -> bool)
    requires Agrees(signals, lockOk, results)
    ensures var r := RunStages(stages, signals, lockOk, results, present);
      |r.failures| == 0 <==> forall i :: 0 <= i < |stages| ==> Clean(Deserved(stages[i], lockOk, results, present))
    decreases |stages|
  {
    if |stages| > 0 {
      var init := stages[..|stages| - 1];
      RunStagesFailures(init, signals, lockOk, results, present);
      RunStagesAgree(init, signals, lockOk, results, present);
      RunStagesStep(stages, signals, lockOk, results, present);
      AllCleanSnoc(stages, lockOk, results, present);
    }
  }

  /** Every stage earns a clean verdict. */
  predicate AllClean(stages: seq<Stage>, lockOk: bool, results: string -> bool, present: string -> bool) {
    forall i :: 0 <= i < |stages| ==> Clean(Deserved(stages[i], lockOk, results, present))
  }

  lemma AllCleanSnoc(stages: seq<Stage>, lockOk: bool, results: string -> bool, present: string -> bool)
    requires |stages| > 0
    ensures AllClean(stages, lockOk, results, present) <==>
      AllClean(stages[..|stages| - 1], lockOk, results, present)
      && Clean(Deserved(stages[|stages| - 1], lockOk, results, present))
  {
    assert forall i :: 0 <= i < |stages| - 1 ==> stages[..|stages| - 1][i] == stages[i];
  }

  lemma {:induction false} RunStagesPreS3(stages: seq<Stage>, signals: map<string, bool>, lockOk: bool,
                                          results: string -> bool, present: string -> bool)
    ensures RunStages(stages, signals, lockOk, results, present).preS3 <==>
      exists i :: 0 <= i < |stages| && Get(stages[i], "skip_reason") == Some(Scalar("pre-S3"))
    decreases |stages|
  {
    if |stages| > 0 {
      var init := stages[..|stages| - 1];
      var stage := stages[|stages| - 1];
      RunStagesPreS3(init, signals, lockOk, results, present);
      assert forall i :: 0 <= i < |init| ==> stages[i] == init[i];
      if Get(stage, "skip_reason") == Some(Scalar("pre-S3")) {
        assert FieldTruthy(Get(stage, "skip_reason"));
      }
    }
  }

  /** The keys of `{str(entry["id"]): entry for entry in lock["stages"]}`:
      each id once, where it first occurs. */
  function Dedupe(ids: seq<string>): (r: seq<string>)
    ensures Distinct(r)
    ensures forall x :: x in r <==> x in ids
    decreases |ids|
  {
    if |ids| == 0 then []
    else
      var rest := Dedupe(ids[..|ids| - 1]);
      var last := ids[|ids| - 1];
      assert forall x :: x in ids <==> x in ids[..|ids| - 1] || x == last;
      if last in rest then rest else rest + [last]
  }

  function StageIds(stages: seq<Stage>): (ids: seq<string>)
    ensures |ids| == |stages| && forall i :: 0 <= i < |stages| ==> ids[i] == StageId(stages[i])
  {
    seq(|stages|, i requires 0 <= i < |stages| => StageId(stages[i]))
  }

  datatype Outcome = Outcome(lockOk: bool, lines: seq<GateLine>, failures: seq<Failure>)

  /** `main()` after the roadmap, the lock and the file-set digest are read:
      `lockIds` are the lock's stage ids (already `str`-ed), `lockSha` its
      `fileset_sha256` entry (None when absent) and `filesetSha` the digest
      of the tracked files. The run exits with an error exactly when the
      failure list is not empty. */
  function Gate(stages: seq<Stage>, lockIds: seq<string>, lockSha: Option<Json.Value>, filesetSha: string,
                checks: string -> Result<bool>, present: string -> bool): (r: Result<Outcome>)
    ensures r.Ok? <==> forall n :: n in SignalNames ==> checks(n).Ok?
    ensures r.Err? ==> FirstRaise(CallOrder, checks, r.error)
    ensures r.Ok? ==> (r.value.lockOk <==>
      lockSha == Some(Json.Str(filesetSha)) && (set id | id in StageIds(stages)) == (set id | id in lockIds))
    ensures r.Ok? ==> |r.value.lines| == |stages| || |r.value.lines| == |stages| + 1
  {
    SameIds(StageIds(stages), lockIds);
    var ids := StageIds(stages);
    var lockKeys := Dedupe(lockIds);
    var missing := Where(ids, id => id !in lockKeys);
    var extra := Where(lockKeys, id => id !in ids);
    var lockOk := lockSha == Some(Json.Str(filesetSha)) && |missing| == 0 && |extra| == 0;
    var head := (if |missing| > 0 then [MissingInLock(missing)] else [])
              + (if |extra| > 0 then [ExtraInLock(extra)] else []);
    var signals :- InitialSignals(lockOk, checks);
    var run := RunStages(stages, signals, lockOk, Outcomes(checks), present);
    Ok(Outcome(lockOk, run.lines + (if run.preS3 then [ExpectedNotExecuted] else []), head + run.failures))
  }

  /** When one check alone raises, `main` stops with exactly its error,
      whatever the roadmap and the lock say. */
  lemma OneRaiseAborts(stages: seq<Stage>, lockIds: seq<string>, lockSha: Option<Json.Value>, filesetSha: string,
                       checks: string -> Result<bool>, present: string -> bool, k: string)
    requires k in SignalNames && checks(k).Err?
    requires forall n :: n in SignalNames && n != k ==> checks(n).Ok?
    ensures Gate(stages, lockIds, lockSha, filesetSha, checks, present) == Err(checks(k).error)
  {
    var r := Gate(stages, lockIds, lockSha, filesetSha, checks, present);
    CallOrderNames();
    var i :| 0 <= i < |CallOrder| && checks(CallOrder[i]) == Err(r.error) && forall j :: 0 <= j < i ==> checks(CallOrder[j]).Ok?;
    assert CallOrder[i] in SignalNames;
  }

  /** The metric thresholds check raises on a summary whose `p_at_1` is
      null, and then no stage is looked at: the run ends with TypeError. */
  lemma NullPAt1AbortsGate(stages: seq<Stage>, lockIds: seq<string>, lockSha: Option<Json.Value>, filesetSha: string,
                           checks: string -> Result<bool>, present: string -> bool,
                           summary: seq<(string, Json.Value)>, offline: Option<Json.Value>)
    requires !Json.HasKey(summary, "candidate_at_k_recall") && !Json.HasKey(summary, "e2e_p95_ms")
    requires Json.Lookup(summary, "p_at_1") == Some(Json.Null)
    requires checks("thresholds_met") == ThresholdsMet(Some(Json.Dict(summary)), offline)
    requires forall n :: n in SignalNames && n != "thresholds_met" ==> checks(n).Ok?
    ensures Gate(stages, lockIds, lockSha, filesetSha, checks, present).Err?
    ensures Gate(stages, lockIds, lockSha, filesetSha, checks, present).error.kind == TypeError
  {
    NullPAt1Raises(summary, offline);
    OneRaiseAborts(stages, lockIds, lockSha, filesetSha, checks, present, "thresholds_met");
  }

  /** The lock names exactly the roadmap's stage ids when no id is missing
      from it and none is extra. */
  lemma SameIds(ids: seq<string>, lockIds: seq<string>)
    ensures (|Where(ids, id => id !in Dedupe(lockIds))| == 0 && |Where(Dedupe(lockIds), id => id !in ids)| == 0) <==>
      (set id | id in ids) == (set id | id in lockIds)
  {
    var lockKeys := Dedupe(lockIds);
    var a := set x | x in ids;
    var b := set x | x in lockIds;
    if a == b {
      forall y | y in ids
        ensures y in lockKeys
      {
        assert y in a;
      }
      forall y | y in lockKeys
        ensures y in ids
      {
        assert y in b;
      }
    }
  }

  /** The run succeeds exactly when the lock names the roadmap's stages and
      every stage is skipped or passes; the gate summary has one line per
      stage with its deserved verdict, plus the "expected" line when a stage
      is skipped as `pre-S3`. */
  lemma GateClean(stages: seq<Stage>, lockIds: seq<string>, lockSha: Option<Json.Value>, filesetSha: string,
                  checks: string -> Result<bool>, present: string -> bool)
    ensures var r := Gate(stages, lockIds, lockSha, filesetSha, checks, present);
      r.Ok? ==>
      && (|r.value.failures| == 0 <==>
            && (set id | id in StageIds(stages)) == (set id | id in lockIds)
            && forall i :: 0 <= i < |stages| ==> Clean(Deserved(stages[i], r.value.lockOk, Outcomes(checks), present)))
      && (forall i :: 0 <= i < |stages| ==>
            r.value.lines[i] == StageResult(StageId(stages[i]), Deserved(stages[i], r.value.lockOk, Outcomes(checks), present)))
      && (|r.value.lines| == |stages| + 1 <==>
            exists i :: 0 <= i < |stages| && Get(stages[i], "skip_reason") == Some(Scalar("pre-S3")))
  {
    var r := Gate(stages, lockIds, lockSha, filesetSha, checks, present);
    if r.Ok? {
      var lockOk := r.value.lockOk;
      InitialAgrees(lockOk, checks);
      var signals := InitialSignals(lockOk, checks).value;
      RunStagesSpec(stages, signals, lockOk, Outcomes(checks), present);
      GateParts(stages, lockIds, lockSha, filesetSha, checks, present);
      SameIds(StageIds(stages), lockIds);
    }
  }

  /** How `main` assembles its outcome from the lock comparison and the
      stage loop. */
  lemma GateParts(stages: seq<Stage>, lockIds: seq<string>, lockSha: Option<Json.Value>, filesetSha: string,
                  checks: string -> Result<bool>, present: string -> bool)
    ensures var r := Gate(stages, lockIds, lockSha, filesetSha, checks, present);
      r.Ok? ==>
      var run := RunStages(stages, InitialSignals(r.value.lockOk, checks).value, r.value.lockOk, Outcomes(checks), present);
      var ids := StageIds(stages);
      var lockKeys := Dedupe(lockIds);
      && (|r.value.failures| == 0 <==>
            |Where(ids, id => id !in lockKeys)| == 0 && |Where(lockKeys, id => id !in ids)| == 0 && |run.failures| == 0)
      && r.value.lines[..|run.lines|] == run.lines
      && (|r.value.lines| == |run.lines| + 1 <==> run.preS3)
  {
    var r := Gate(stages, lockIds, lockSha, filesetSha, checks, present);
    if r.Ok? {
      var run := RunStages(stages, InitialSignals(r.value.lockOk, checks).value, r.value.lockOk, Outcomes(checks), present);
      assert r.value.lines == run.lines + (if run.preS3 then [ExpectedNotExecuted] else []);
    }
  }
}
