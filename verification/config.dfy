/** The configuration loader of the `vision` package: in-code defaults,
    deep-merged with an optional TOML document and then with `VISION__`
    environment overrides, validated into the frozen section records and
    cached until the cache is reset. Reading the TOML file and the process
    environment is left out: the decoded document and the environment's
    entries are parameters. */
module VisionConfig {
  import opened Base
  import opened Text
  import opened PyFloat
  import Json

  type Entry = (string, Json.Value)

  // ---------------------------------------------------------------------------
  // Reading nested dictionaries

  /** `d[section][field]` when `d[section]` is a dict holding `field`. */
  function Lookup2(d: seq<Entry>, section: string, field: string): Option<Json.Value> {
    match Json.Lookup(d, section)
    case Some(Dict(inner)) => Json.Lookup(inner, field)
    case _ => None
  }

  /** Looking a key up after appending an entry. */
  lemma {:induction false} LookupAppend(e: seq<Entry>, key: string, v: Json.Value, k: string)
    ensures Json.Lookup(e + [(key, v)], k) ==
      if Json.HasKey(e, k) then Json.Lookup(e, k) else if k == key then Some(v) else None
    decreases |e|
  {
    if |e| > 0 {
      assert (e + [(key, v)])[1..] == e[1..] + [(key, v)];
      if e[0].0 != k {
        Json.HasKeyTail(e, k);
        LookupAppend(e[1..], key, v, k);
      }
    }
  }

  // ---------------------------------------------------------------------------
  // `_deep_merge`

  /** The first `n` override entries merged into `base`, in order. */
  function MergeUpTo(base: seq<Entry>, ov: Json.Value, n: nat): seq<Entry>
    requires ov.Dict? && n <= |ov.entries|
    decreases ov, n
  {
    if n == 0 then base
    else
      var acc := MergeUpTo(base, ov, n - 1);
      var key := ov.entries[n - 1].0;
      assert ov.entries[n - 1] in ov.entries;
      Json.Put(acc, key, StepValue(acc, key, ov.entries[n - 1].1))
  }

  /** What one override entry stores: a dict merged into a dict already
      there, otherwise the override's value itself. */
  function StepValue(acc: seq<Entry>, key: string, value: Json.Value): Json.Value
    decreases value, if value.Dict? then |value.entries| + 1 else 0
  {
    match Json.Lookup(acc, key)
    case Some(Dict(cur)) =>
      if value.Dict? then Json.Dict(MergeUpTo(cur, value, |value.entries|)) else value
    case _ => value
  }

  /** `_deep_merge(base, override)`: a fresh dict; `base` is a value and is
      never changed. */
  function DeepMerge(base: seq<Entry>, override: seq<Entry>): (r: seq<Entry>)
    ensures forall k :: Json.HasKey(r, k) <==> Json.HasKey(base, k) || Json.HasKey(override, k)
  {
    MergeUpToKeys(base, Json.Dict(override), |override|);
    assert override[..|override|] == override;
    MergeUpTo(base, Json.Dict(override), |override|)
  }

  /** After the first `n` override entries the merge holds the keys of the
      base and of those entries, and no others. */
  lemma {:induction false} MergeUpToKeys(base: seq<Entry>, ov: Json.Value, n: nat)
    requires ov.Dict? && n <= |ov.entries|
    ensures forall k :: Json.HasKey(MergeUpTo(base, ov, n), k) <==> Json.HasKey(base, k) || Json.HasKey(ov.entries[..n], k)
    decreases n
  {
    if n > 0 {
      MergeUpToKeys(base, ov, n - 1);
      var acc := MergeUpTo(base, ov, n - 1);
      var key := ov.entries[n - 1].0;
      var done := ov.entries[..n];
      forall k
        ensures Json.HasKey(MergeUpTo(base, ov, n), k) <==> Json.HasKey(base, k) || Json.HasKey(done, k)
      {
        Json.PutLookup(acc, key, StepValue(acc, key, ov.entries[n - 1].1), k);
        assert done[n - 1].0 == key;
        if Json.HasKey(done, k) && k != key {
          var i :| 0 <= i < n && done[i].0 == k;
          assert ov.entries[..n - 1][i].0 == k;
        }
        if Json.HasKey(ov.entries[..n - 1], k) {
          var i :| 0 <= i < n - 1 && ov.entries[..n - 1][i].0 == k;
          assert done[i].0 == k;
        }
      }
    }
  }

  /** What `_deep_merge` leaves under `k`, given the entries merged so far:
      the base's value when no override names `k`; the recursive merge when
      both sides hold dicts; otherwise the override's value. */
  function Merged(base: seq<Entry>, prefix: seq<Entry>, k: string): Option<Json.Value> {
    match Json.Lookup(prefix, k)
    case None => Json.Lookup(base, k)
    case Some(v) =>
      match Json.Lookup(base, k)
      case Some(Dict(b)) => if v.Dict? then Some(Json.Dict(DeepMerge(b, v.entries))) else Some(v)
      case _ => Some(v)
  }

  /** Every key of the merged dict reads as `Merged` says, for an override
      without repeated keys (a Python dict has none). */
  lemma {:induction false} MergeUpToLookup(base: seq<Entry>, ov: Json.Value, n: nat, k: string)
    requires ov.Dict? && n <= |ov.entries| && Distinct(Json.Keys(ov.entries))
    ensures Json.Lookup(MergeUpTo(base, ov, n), k) == Merged(base, ov.entries[..n], k)
    decreases n
  {
    if n > 0 {
      var e := ov.entries;
      var acc := MergeUpTo(base, ov, n - 1);
      var key := e[n - 1].0;
      var value := e[n - 1].1;
      assert e[..n] == e[..n - 1] + [(key, value)];
      MergeUpToLookup(base, ov, n - 1, k);
      MergeUpToLookup(base, ov, n - 1, key);
      assert !Json.HasKey(e[..n - 1], key);
      Json.PutLookup(acc, key, StepValue(acc, key, value), k);
      if k == key {
        MergeStepKey(base, e[..n - 1], acc, key, value);
      } else {
        LookupAppend(e[..n - 1], key, value, k);
      }
    }
  }

  /** The entry just merged reads as `Merged` says. */
  lemma MergeStepKey(base: seq<Entry>, prefix: seq<Entry>, acc: seq<Entry>, key: string, value: Json.Value)
    requires !Json.HasKey(prefix, key) && Json.Lookup(acc, key) == Json.Lookup(base, key)
    ensures Some(StepValue(acc, key, value)) == Merged(base, prefix + [(key, value)], key)
  {
    LookupAppend(prefix, key, value, key);
    if value.Dict? {
      assert Json.Dict(value.entries) == value;
    }
  }

  /** `_deep_merge`, key by key. */
  lemma DeepMergeLookup(base: seq<Entry>, override: seq<Entry>, k: string)
    requires Distinct(Json.Keys(override))
    ensures Json.Lookup(DeepMerge(base, override), k) == Merged(base, override, k)
  {
    MergeUpToLookup(base, Json.Dict(override), |override|, k);
    assert override[..|override|] == override;
  }

  // ---------------------------------------------------------------------------
  // Environment overrides

  /** `_cast_env_value`: `int`, else `float`, else the string itself. */
  function CastEnvValue(value: string): (r: Json.Value)
    ensures r.Int? || r.Float? || r == Json.Str(value)
    ensures ParseInt(value).Some? ==> r == Json.Int(ParseInt(value).value)
    ensures ParseInt(value).None? && ParseFloat(value).Some? ==> r == Json.Float(ParseFloat(value).value)
    ensures ParseInt(value).None? && ParseFloat(value).None? ==> r == Json.Str(value)
  {
    match ParseInt(value)
    case Some(i) => Json.Int(i)
    case None =>
      match ParseFloat(value)
      case Some(f) => Json.Float(f)
      case None => Json.Str(value)
  }

  const Prefix: string := "VISION__"

  /** The `(section, field)` a variable name addresses: the `VISION__`
      prefix, then exactly two `__`-separated parts, lower-cased. */
  function Target(rawKey: string): (r: Option<(string, string)>)
    ensures r.Some? ==> StartsWith(rawKey, Prefix)
    ensures r.Some? ==> Lower(r.value.0) == r.value.0 && Lower(r.value.1) == r.value.1
    ensures r.Some? <==> StartsWith(rawKey, Prefix) && |Split(rawKey[|Prefix|..], "__")| == 2
    ensures r.Some? ==> exists a, b ::
      && rawKey == Prefix + a + "__" + b
      && Split(rawKey[|Prefix|..], "__") == [a, b]
      && r.value == (Lower(a), Lower(b))
  {
    if !StartsWith(rawKey, Prefix) then None
    else
      var parts := Split(rawKey[|Prefix|..], "__");
      if |parts| != 2 then None
      else
        SplitJoin(rawKey[|Prefix|..], "__");
        assert parts[1..] == [parts[1]];
        assert rawKey == Prefix + rawKey[|Prefix|..];
        assert parts == [parts[0], parts[1]];
        Some((Lower(parts[0]), Lower(parts[1])))
  }

  /** `part in whole` on strings. */
  predicate IsSubstring(part: string, whole: string)
    decreases |whole|
  {
    StartsWith(whole, part) || (|whole| > 0 && IsSubstring(part, whole[1..]))
  }

  /** Python's `field in container` for what a section may hold: keys of a
      dict, substrings of a string, items of a list; anything else raises
      TypeError. */
  function Contains(container: Json.Value, field: string): (r: Result<bool>)
    ensures container.Dict? ==> r == Ok(Json.HasKey(container.entries, field))
    ensures r.Err? <==> !(container.Dict? || container.Str? || container.List?)
  {
    match container
    case Dict(entries) => Ok(Json.HasKey(entries, field))
    case Str(s) => Ok(IsSubstring(field, s))
    case List(items) => Ok(Json.Str(field) in items)
    case _ => Raise(TypeError, "argument is not iterable")
  }

  /** Whether the variable `rawKey` sets a field the schema knows. */
  function Accepts(schema: seq<Entry>, rawKey: string): (r: Result<Option<(string, string)>>)
    ensures r.Ok? && r.value.Some? ==> Target(rawKey) == r.value && Json.HasKey(schema, r.value.value.0)
    ensures r.Ok? && r.value.Some? ==> Contains(Json.Lookup(schema, r.value.value.0).value, r.value.value.1) == Ok(true)
    ensures Target(rawKey).None? ==> r == Ok(None)
    ensures Target(rawKey).Some? && !Json.HasKey(schema, Target(rawKey).value.0) ==> r == Ok(None)
    ensures Target(rawKey).Some? && Json.HasKey(schema, Target(rawKey).value.0) ==>
      var t := Target(rawKey).value;
      var inSection := Contains(Json.Lookup(schema, t.0).value, t.1);
      && (r.Err? <==> inSection.Err?)
      && (r == Ok(Some(t)) <==> inSection == Ok(true))
  {
    match Target(rawKey)
    case None => Ok(None)
    case Some((section, field)) =>
      match Json.Lookup(schema, section)
      case None => Ok(None)
      case Some(sub) =>
        var present :- Contains(sub, field);
        if present then Ok(Some((section, field))) else Ok(None)
  }

  /** A dict of sections: no key twice, each value a dict without a key
      twice. */
  predicate Sections(d: seq<Entry>) {
    Distinct(Json.Keys(d))
    && forall i :: 0 <= i < |d| ==> d[i].1.Dict? && Distinct(Json.Keys(d[i].1.entries))
  }

  /** Puts `value` at `d[section][field]`, creating the section dict first
      (`result.setdefault(section, {})[field] = value`). */
  function SetNested(d: seq<Entry>, section: string, field: string, value: Json.Value): (r: seq<Entry>)
    requires Sections(d)
    ensures Sections(r)
  {
    var inner := match Json.Lookup(d, section) case Some(Dict(e)) => e case _ => [];
    assert Distinct(Json.Keys(inner)) by {
      if Json.Lookup(d, section).Some? {
        var i :| 0 <= i < |d| && d[i] == (section, Json.Lookup(d, section).value);
      }
    }
    var v := Json.Dict(Json.Put(inner, field, value));
    Json.PutDistinct(inner, field, value);
    Json.PutDistinct(d, section, v);
    PutValues(d, section, v);
    Json.Put(d, section, v)
  }

  /** Every entry after `d[key] = v` was there before or is the new one. */
  lemma {:induction false} PutValues(d: seq<Entry>, key: string, v: Json.Value)
    ensures forall i :: 0 <= i < |Json.Put(d, key, v)| ==> Json.Put(d, key, v)[i] in d || Json.Put(d, key, v)[i] == (key, v)
    decreases |d|
  {
    if |d| > 0 && d[0].0 != key {
      PutValues(d[1..], key, v);
      var r := Json.Put(d, key, v);
      forall i | 0 <= i < |r|
        ensures r[i] in d || r[i] == (key, v)
      {
        if i > 0 {
          assert r[i] == Json.Put(d[1..], key, v)[i - 1];
        }
      }
    }
  }

  /** `_env_overrides(schema)` over the environment's entries, in order. */
  function EnvOverrides(schema: seq<Entry>, environ: seq<(string, string)>): (r: Result<seq<Entry>>)
    ensures r.Ok? ==> Sections(r.value)
    decreases |environ|
  {
    if |environ| == 0 then Ok([])
    else
      var acc :- EnvOverrides(schema, environ[..|environ| - 1]);
      var (rawKey, rawValue) := environ[|environ| - 1];
      var hit :- Accepts(schema, rawKey);
      match hit
      case None => Ok(acc)
      case Some((section, field)) => Ok(SetNested(acc, section, field, CastEnvValue(rawValue)))
  }

  /** The value the environment sets for `(section, field)`: the cast value
      of the last accepted variable that addresses it. */
  function EnvValue(schema: seq<Entry>, environ: seq<(string, string)>, section: string, field: string): (r: Option<Json.Value>)
    ensures r.Some? ==> r.value.Int? || r.value.Float? || r.value.Str?
    decreases |environ|
  {
    if |environ| == 0 then None
    else
      var last := environ[|environ| - 1];
      if Accepts(schema, last.0) == Ok(Some((section, field))) then Some(CastEnvValue(last.1))
      else EnvValue(schema, environ[..|environ| - 1], section, field)
  }

  lemma SetNestedLookup(d: seq<Entry>, section: string, field: string, value: Json.Value, s: string, f: string)
    requires Sections(d)
    ensures Lookup2(SetNested(d, section, field, value), s, f) ==
      if s == section && f == field then Some(value)
      else if s == section then Lookup2(d, section, f)
      else Lookup2(d, s, f)
  {
    var inner := match Json.Lookup(d, section) case Some(Dict(e)) => e case _ => [];
    var v := Json.Dict(Json.Put(inner, field, value));
    assert SetNested(d, section, field, value) == Json.Put(d, section, v);
    Json.PutLookup(d, section, v, s);
    if s == section {
      Json.PutLookup(inner, field, value, f);
    }
  }

  /** The overrides dict holds, for each field, exactly the value of the
      last variable that sets it. */
  lemma {:induction false} EnvOverridesLookup(schema: seq<Entry>, environ: seq<(string, string)>, s: string, f: string)
    requires EnvOverrides(schema, environ).Ok?
    ensures Lookup2(EnvOverrides(schema, environ).value, s, f) == EnvValue(schema, environ, s, f)
    decreases |environ|
  {
    if |environ| > 0 {
      var init := environ[..|environ| - 1];
      EnvOverridesLookup(schema, init, s, f);
      var acc := EnvOverrides(schema, init).value;
      var (rawKey, rawValue) := environ[|environ| - 1];
      var hit := Accepts(schema, rawKey).value;
      if hit.Some? {
        SetNestedLookup(acc, hit.value.0, hit.value.1, CastEnvValue(rawValue), s, f);
        if s == hit.value.0 && f != hit.value.1 {
          EnvOverridesLookup(schema, init, s, f);
        }
      }
    }
  }

  /** A variable outside the `VISION__SECTION__FIELD` shape, or naming a
      section the schema lacks, changes nothing. */
  lemma IgnoredVariable(schema: seq<Entry>, environ: seq<(string, string)>, rawKey: string, rawValue: string)
    requires Target(rawKey).None? || !Json.HasKey(schema, Target(rawKey).value.0)
    ensures EnvOverrides(schema, environ + [(rawKey, rawValue)]) == EnvOverrides(schema, environ)
  {
    assert (environ + [(rawKey, rawValue)])[..|environ|] == environ;
    if Target(rawKey).Some? {
      assert Json.Lookup(schema, Target(rawKey).value.0).None?;
    }
  }

  // ---------------------------------------------------------------------------
  // Defaults, validation, precedence and the cache

  /** `asdict(Config())`. */
  function Defaults(): (d: seq<Entry>)
    ensures Json.Keys(d) == ["detector", "tracker", "embedder", "matcher", "pipeline", "paths", "latency"]
    ensures Sections(d)
  {
    [("detector", Json.Dict([("model_path", Json.Str("models/yolov8n.onnx")), ("input_size", Json.Int(640))])),
     ("tracker", Json.Dict([("type", Json.Str("bytetrack"))])),
     ("embedder", Json.Dict([("model", Json.Str("ViT-B-32-openai")), ("batch_size", Json.Int(8)), ("device", Json.Str("cpu"))])),
     ("matcher", Json.Dict([("index_type", Json.Str("faiss-flat")), ("topk", Json.Int(5)),
                            ("threshold", Json.Float(Finite(0.35))), ("min_neighbors", Json.Int(1))])),
     ("pipeline", Json.Dict([("frame_stride", Json.Int(1))])),
     ("paths", Json.Dict([("kb_json", Json.Str("data/kb.json")), ("telemetry_csv", Json.Str("artifacts/telemetry.csv"))])),
     ("latency", Json.Dict([("budget_ms", Json.Int(66))]))]
  }

  /** One section record built by `SectionConfig(**data[section])`: every
      given key must be a field; missing fields take their defaults. */
  function Section(fields: seq<Entry>, given: Json.Value): (r: Result<seq<Entry>>)
    ensures r.Ok? ==> Json.Keys(r.value) == Json.Keys(fields)
    ensures r.Ok? <==> given.Dict? && forall i :: 0 <= i < |given.entries| ==> Json.HasKey(fields, given.entries[i].0)
  {
    if !given.Dict? then Raise(TypeError, "argument after ** must be a mapping")
    else if exists i :: 0 <= i < |given.entries| && !Json.HasKey(fields, given.entries[i].0) then
      Raise(TypeError, "got an unexpected keyword argument")
    else
      Ok(seq(|fields|, i requires 0 <= i < |fields| =>
        (fields[i].0, Json.Lookup(given.entries, fields[i].0).GetOr(fields[i].1))))
  }

  /** `_dict_to_config(data)`: the seven sections, in declaration order. */
  function DictToConfig(data: seq<Entry>): (r: Result<seq<Entry>>)
    ensures r.Ok? ==> Json.Keys(r.value) == Json.Keys(Defaults())
  {
    DictToConfigFrom(data, Defaults())
  }

  function DictToConfigFrom(data: seq<Entry>, schema: seq<Entry>): (r: Result<seq<Entry>>)
    requires Sections(schema)
    ensures r.Ok? ==> Json.Keys(r.value) == Json.Keys(schema)
    decreases |schema|
  {
    if |schema| == 0 then Ok([])
    else
      var name := schema[0].0;
      var given :- match Json.Lookup(data, name)
        case None => Raise(KeyError, name)
        case Some(v) => Ok(v);
      var section :- Section(schema[0].1.entries, given);
      var rest :- DictToConfigFrom(data, schema[1..]);
      Ok([(name, Json.Dict(section))] + rest)
  }

  /** In a dict without repeated keys, the key of the `i`-th entry reads
      that entry's value. */
  lemma {:induction false} LookupAt(e: seq<Entry>, i: nat)
    requires Distinct(Json.Keys(e)) && i < |e|
    ensures Json.Lookup(e, e[i].0) == Some(e[i].1)
    decreases i
  {
    if i > 0 {
      var ks := Json.Keys(e);
      assert ks[0] != ks[i];
      assert Json.Keys(e[1..]) == ks[1..];
      LookupAt(e[1..], i - 1);
    }
  }

  /** A field of a built section reads the given value when there is one and
      the default otherwise. */
  lemma SectionLookup(fields: seq<Entry>, given: Json.Value, f: string)
    requires Distinct(Json.Keys(fields)) && Section(fields, given).Ok?
    ensures Json.Lookup(Section(fields, given).value, f) ==
      if Json.HasKey(fields, f) && Json.HasKey(given.entries, f) then Json.Lookup(given.entries, f)
      else Json.Lookup(fields, f)
  {
    var r := Section(fields, given).value;
    if Json.HasKey(fields, f) {
      var i :| 0 <= i < |fields| && fields[i].0 == f;
      LookupAt(fields, i);
      assert Json.Keys(r) == Json.Keys(fields);
      LookupAt(r, i);
    }
  }

  /** Building a section from its own defaults gives the defaults back. */
  lemma SectionOfDefaults(fields: seq<Entry>)
    requires Distinct(Json.Keys(fields))
    ensures Section(fields, Json.Dict(fields)) == Ok(fields)
  {
    forall i | 0 <= i < |fields|
      ensures Json.HasKey(fields, fields[i].0)
    {
    }
    var r := Section(fields, Json.Dict(fields)).value;
    forall i | 0 <= i < |fields|
      ensures r[i] == fields[i]
    {
      LookupAt(fields, i);
    }
    assert r == fields;
  }

  /** Section `entry` of the schema can be built from `data`. */
  predicate SectionFits(data: seq<Entry>, entry: Entry) {
    entry.1.Dict? && Json.HasKey(data, entry.0) && Section(entry.1.entries, Json.Lookup(data, entry.0).value).Ok?
  }

  /** `_dict_to_config` succeeds exactly when every section is present and
      names only known fields. */
  lemma {:induction false} DictToConfigOk(data: seq<Entry>, schema: seq<Entry>)
    requires Sections(schema)
    ensures DictToConfigFrom(data, schema).Ok? <==> forall i :: 0 <= i < |schema| ==> SectionFits(data, schema[i])
    decreases |schema|
  {
    if |schema| > 0 {
      SectionsTail(schema);
      DictToConfigOk(data, schema[1..]);
      assert forall i :: 0 < i < |schema| ==> schema[i] == schema[1..][i - 1];
    }
  }

  /** The first section that cannot be built decides the error: KeyError
      when it is missing, TypeError when it is not a mapping or names an
      unknown field. */
  lemma {:induction false} DictToConfigError(data: seq<Entry>, schema: seq<Entry>, k: nat)
    requires Sections(schema) && k < |schema|
    requires forall i :: 0 <= i < k ==> SectionFits(data, schema[i])
    requires !SectionFits(data, schema[k])
    ensures DictToConfigFrom(data, schema).Err?
    ensures DictToConfigFrom(data, schema).error.kind == (if Json.HasKey(data, schema[k].0) then TypeError else KeyError)
    decreases k
  {
    if k > 0 {
      SectionsTail(schema);
      assert forall i :: 0 <= i < k - 1 ==> schema[1..][i] == schema[i + 1];
      DictToConfigError(data, schema[1..], k - 1);
    }
  }

  lemma SectionsTail(d: seq<Entry>)
    requires Sections(d) && |d| > 0
    ensures Sections(d[1..])
  {
    assert Json.Keys(d[1..]) == Json.Keys(d)[1..];
  }

  /** Every section of the built configuration holds, field by field, the
      value the data gives or the section's default. */
  lemma {:induction false} DictToConfigLookup(data: seq<Entry>, schema: seq<Entry>, s: string)
    requires Sections(schema) && DictToConfigFrom(data, schema).Ok? && Json.HasKey(schema, s)
    ensures Json.HasKey(data, s)
    ensures Json.Lookup(schema, s).value.Dict?
    ensures Section(Json.Lookup(schema, s).value.entries, Json.Lookup(data, s).value).Ok?
    ensures Json.Lookup(DictToConfigFrom(data, schema).value, s) ==
      Some(Json.Dict(Section(Json.Lookup(schema, s).value.entries, Json.Lookup(data, s).value).value))
    decreases |schema|
  {
    DictToConfigHead(data, schema);
    var name := schema[0].0;
    var r := DictToConfigFrom(data, schema).value;
    var rest := DictToConfigFrom(data, schema[1..]);
    if name != s {
      Json.HasKeyTail(schema, s);
      DictToConfigLookup(data, schema[1..], s);
      assert r[1..] == rest.value;
    }
  }

  /** The first section of a successful build is the first schema section
      filled from the data, and the rest is built from the rest. */
  lemma DictToConfigHead(data: seq<Entry>, schema: seq<Entry>)
    requires Sections(schema) && |schema| > 0 && DictToConfigFrom(data, schema).Ok?
    ensures Sections(schema[1..])
    ensures Json.HasKey(data, schema[0].0) && schema[0].1.Dict?
    ensures Section(schema[0].1.entries, Json.Lookup(data, schema[0].0).value).Ok?
    ensures DictToConfigFrom(data, schema[1..]).Ok?
    ensures DictToConfigFrom(data, schema).value ==
      [(schema[0].0, Json.Dict(Section(schema[0].1.entries, Json.Lookup(data, schema[0].0).value).value))]
      + DictToConfigFrom(data, schema[1..]).value
  {
    SectionsTail(schema);
  }

  /** `_dict_to_config`, field by field, for any schema. */
  lemma DictToConfigFieldFrom(data: seq<Entry>, schema: seq<Entry>, s: string, f: string)
    requires Sections(schema) && DictToConfigFrom(data, schema).Ok? && Json.HasKey(schema, s)
    ensures Lookup2(DictToConfigFrom(data, schema).value, s, f) ==
      if Lookup2(schema, s, f).Some? && Lookup2(data, s, f).Some? then Lookup2(data, s, f)
      else Lookup2(schema, s, f)
  {
    DictToConfigLookup(data, schema, s);
    var given := Json.Lookup(data, s).value;
    var fields := Json.Lookup(schema, s).value.entries;
    SectionLookup(fields, given, f);
    var built := Section(fields, given).value;
    assert Lookup2(DictToConfigFrom(data, schema).value, s, f) == Json.Lookup(built, f);
    assert Lookup2(schema, s, f) == Json.Lookup(fields, f);
    assert given.Dict? ==> Lookup2(data, s, f) == Json.Lookup(given.entries, f);
  }

  /** `_dict_to_config`, field by field: the data's value for a known field,
      the default for one the data leaves out. */
  lemma DictToConfigField(data: seq<Entry>, s: string, f: string)
    requires DictToConfig(data).Ok? && Json.HasKey(Defaults(), s)
    ensures Lookup2(DictToConfig(data).value, s, f) ==
      if Lookup2(Defaults(), s, f).Some? && Lookup2(data, s, f).Some? then Lookup2(data, s, f)
      else Lookup2(Defaults(), s, f)
  {
    DictToConfigFieldFrom(data, Defaults(), s, f);
  }

  /** Without a TOML document and without `VISION__` variables the
      configuration is the defaults. */
  lemma NothingSetGivesDefaults()
    ensures Load(None, []) == Ok(Defaults())
  {
    var d := Defaults();
    forall i | 0 <= i < |d|
      ensures Json.Lookup(d, d[i].0) == Some(d[i].1)
    {
      LookupAt(d, i);
    }
    DefaultsBuild(d, d);
  }

  lemma {:induction false} DefaultsBuild(data: seq<Entry>, schema: seq<Entry>)
    requires Sections(schema) && Sections(data)
    requires forall i :: 0 <= i < |schema| ==> Json.Lookup(data, schema[i].0) == Some(schema[i].1)
    ensures DictToConfigFrom(data, schema) == Ok(schema)
    decreases |schema|
  {
    if |schema| > 0 {
      SectionOfDefaults(schema[0].1.entries);
      SectionsTail(schema);
      DefaultsBuild(data, schema[1..]);
      assert schema == [schema[0]] + schema[1..];
    }
  }

  /** The merged dict before validation: defaults, then the TOML document
      when there is one, then the environment read against that result. */
  function Layered(toml: Option<seq<Entry>>, environ: seq<(string, string)>): (r: Result<seq<Entry>>)
    ensures r.Ok? ==> forall k :: Json.HasKey(WithToml(toml), k) ==> Json.HasKey(r.value, k)
  {
    var env :- EnvOverrides(WithToml(toml), environ);
    Ok(if |env| > 0 then DeepMerge(WithToml(toml), env) else WithToml(toml))
  }

  /** Building the configuration from scratch: a loaded configuration has
      exactly the sections of the defaults, in their order. */
  function Load(toml: Option<seq<Entry>>, environ: seq<(string, string)>): (r: Result<seq<Entry>>)
    ensures r.Ok? ==> Json.Keys(r.value) == Json.Keys(Defaults())
  {
    var data :- Layered(toml, environ);
    DictToConfig(data)
  }

  /** The dict the TOML layer leaves: the defaults, merged with the
      document when there is one, which adds its own sections to those of
      the defaults. */
  function WithToml(toml: Option<seq<Entry>>): (r: seq<Entry>)
    ensures toml.Some? ==>
      forall k :: Json.HasKey(r, k) <==> Json.HasKey(Defaults(), k) || Json.HasKey(toml.value, k)
  {
    if toml.Some? then DeepMerge(Defaults(), toml.value) else Defaults()
  }

  /** A section of a section dict is a dict without repeated keys. */
  lemma SectionOf(d: seq<Entry>, s: string)
    requires Sections(d) && Json.Lookup(d, s).Some?
    ensures Json.Lookup(d, s).value.Dict? && Distinct(Json.Keys(Json.Lookup(d, s).value.entries))
  {
    var i :| 0 <= i < |d| && d[i] == (s, Json.Lookup(d, s).value);
  }

  /** Merging section overrides into a dict section replaces the field. */
  lemma MergeSectionField(base: seq<Entry>, env: seq<Entry>, s: string, f: string)
    requires Sections(env)
    requires Json.Lookup(base, s).Some? && Json.Lookup(base, s).value.Dict?
    requires Lookup2(env, s, f).Some? && !Lookup2(env, s, f).value.Dict?
    ensures Lookup2(DeepMerge(base, env), s, f) == Lookup2(env, s, f)
  {
    DeepMergeLookup(base, env, s);
    SectionOf(env, s);
    DeepMergeLookup(Json.Lookup(base, s).value.entries, Json.Lookup(env, s).value.entries, f);
  }

  /** Precedence defaults < TOML < environment: a field the environment sets
      (to a number or a string, never a dict) takes that value over whatever
      the TOML layer left in a dict section. */
  lemma EnvWins(toml: Option<seq<Entry>>, environ: seq<(string, string)>, s: string, f: string)
    requires Layered(toml, environ).Ok?
    requires Json.Lookup(WithToml(toml), s).Some? && Json.Lookup(WithToml(toml), s).value.Dict?
    requires EnvValue(WithToml(toml), environ, s, f).Some?
    ensures Lookup2(Layered(toml, environ).value, s, f) == EnvValue(WithToml(toml), environ, s, f)
  {
    var env := EnvOverrides(WithToml(toml), environ).value;
    EnvOverridesLookup(WithToml(toml), environ, s, f);
    MergeSectionField(WithToml(toml), env, s, f);
  }

  /** A TOML value under a dict section, not a dict itself, replaces the
      default when the environment does not set that field. */
  lemma TomlOverDefault(doc: seq<Entry>, s: string, f: string)
    requires Distinct(Json.Keys(doc))
    requires Json.Lookup(Defaults(), s).Some?
    requires Json.Lookup(doc, s).Some? && Json.Lookup(doc, s).value.Dict?
    requires Distinct(Json.Keys(Json.Lookup(doc, s).value.entries))
    requires Lookup2(doc, s, f).Some? && !Lookup2(doc, s, f).value.Dict?
    ensures Lookup2(DeepMerge(Defaults(), doc), s, f) == Lookup2(doc, s, f)
  {
    DeepMergeLookup(Defaults(), doc, s);
    var b := Json.Lookup(Defaults(), s).value;
    var i :| 0 <= i < |Defaults()| && Defaults()[i] == (s, b);
    assert b.Dict?;
    DeepMergeLookup(b.entries, Json.Lookup(doc, s).value.entries, f);
  }

  /** `get_config` with the module cache: a cached configuration is returned
      as is, whatever the TOML document or the environment now say; an empty
      cache is filled when loading succeeds. */
  function GetConfig(cache: Option<seq<Entry>>, toml: Option<seq<Entry>>, environ: seq<(string, string)>): (r: (Option<seq<Entry>>, Result<seq<Entry>>))
    ensures cache.Some? ==> r == (cache, Ok(cache.value))
    ensures cache.None? ==> r.1 == Load(toml, environ)
    ensures r.1.Ok? ==> r.0 == Some(r.1.value)
    ensures r.1.Err? ==> r.0 == cache
  {
    if cache.Some? then (cache, Ok(cache.value))
    else
      var loaded := Load(toml, environ);
      if loaded.Ok? then (Some(loaded.value), loaded) else (None, loaded)
  }

  /** `_reset_config_cache()`. */
  function ResetConfigCache(): Option<seq<Entry>> {
    None
  }

  /** After a successful first call every later call returns the same
      configuration until the cache is reset, after which the inputs of the
      next call decide. */
  lemma CacheSticks(toml1: Option<seq<Entry>>, env1: seq<(string, string)>,
                    toml2: Option<seq<Entry>>, env2: seq<(string, string)>)
    requires Load(toml1, env1).Ok?
    ensures var (c1, r1) := GetConfig(None, toml1, env1);
      GetConfig(c1, toml2, env2).1 == r1
    ensures GetConfig(ResetConfigCache(), toml2, env2).1 == Load(toml2, env2)
  {
  }
}
