/** `calibrate` of the calibration script: per-label row counts and source
    sets from a gallery manifest, summarised as quantiles, a diversity
    minimum and SPRT thresholds, and hashed without the timestamp. Reading
    the manifest file, the clock and `metrics_hash` are parameters: the rows
    arrive parsed, `now` is the ISO timestamp, `mhash` the hash. */
module Calibrate {
  import opened Base
  import opened Stats
  import Json
  import PyFloat

  /** The two fields calibration reads from a manifest row. */
  datatype Row = Row(name: string, source: string)

  /** `r["label"]` and `r["source"]`: a row that is not a mapping raises
      TypeError and a missing key KeyError. */
  function ReadRow(v: Json.Value): (r: Result<Row>)
    ensures r.Ok? ==> v.Dict? && Json.Lookup(v.entries, "label") == Some(Json.Str(r.value.name))
    ensures r.Ok? ==> Json.Lookup(v.entries, "source") == Some(Json.Str(r.value.source))
    ensures v.Dict? && !Json.HasKey(v.entries, "label") ==> r.Err? && r.error.kind == KeyError
    ensures !v.Dict? ==> r.Err? && r.error.kind == TypeError
  {
    if !v.Dict? then Raise(TypeError, "row is not subscriptable by a string")
    else
      match Json.Lookup(v.entries, "label")
      case None => Raise(KeyError, "label")
      case Some(lab) =>
        if !lab.Str? then Raise(TypeError, "label is not a string")
        else
          match Json.Lookup(v.entries, "source")
          case None => Raise(KeyError, "source")
          case Some(src) =>
            if !src.Str? then Raise(TypeError, "source is not a string")
            else Ok(Row(lab.s, src.s))
  }

  function ReadRows(vs: seq<Json.Value>): (r: Result<seq<Row>>)
    ensures r.Ok? <==> forall i :: 0 <= i < |vs| ==> ReadRow(vs[i]).Ok?
    ensures r.Ok? ==> |r.value| == |vs| && forall i :: 0 <= i < |vs| ==> r.value[i] == ReadRow(vs[i]).value
    decreases |vs|
  {
    if |vs| == 0 then Ok([])
    else
      var init :- ReadRows(vs[..|vs| - 1]);
      var last :- ReadRow(vs[|vs| - 1]);
      Ok(init + [last])
  }

  // ---------------------------------------------------------------------------
  // Counting

  /** One entry of `counts` and `sources`, which share their keys. */
  datatype Entry = Entry(name: string, count: nat, sources: set<string>)

  function Labels(rows: seq<Row>): (ls: seq<string>)
    ensures |ls| == |rows| && forall i :: 0 <= i < |rows| ==> ls[i] == rows[i].name
  {
    seq(|rows|, i requires 0 <= i < |rows| => rows[i].name)
  }

  /** The sources seen with label `lab`. */
  function SourcesOf(rows: seq<Row>, lab: string): set<string>
    decreases |rows|
  {
    if |rows| == 0 then {}
    else
      var rest := SourcesOf(rows[..|rows| - 1], lab);
      if rows[|rows| - 1].name == lab then rest + {rows[|rows| - 1].source} else rest
  }

  /** A source is in `SourcesOf(rows, lab)` exactly when some row pairs it
      with `lab`. */
  lemma {:induction false} SourcesOfMeaning(rows: seq<Row>, lab: string, src: string)
    ensures src in SourcesOf(rows, lab) <==> exists i :: 0 <= i < |rows| && rows[i] == Row(lab, src)
    decreases |rows|
  {
    if |rows| > 0 {
      var init := rows[..|rows| - 1];
      SourcesOfMeaning(init, lab, src);
      assert forall i :: 0 <= i < |init| ==> rows[i] == init[i];
    }
  }

  /** Position of `lab` among the entries, if present. */
  function Find(t: seq<Entry>, lab: string): (r: Option<nat>)
    ensures r.Some? ==> r.value < |t| && t[r.value].name == lab
    ensures r.None? ==> forall i :: 0 <= i < |t| ==> t[i].name != lab
  {
    if |t| == 0 then None
    else if t[0].name == lab then Some(0)
    else match Find(t[1..], lab)
      case None => None
      case Some(i) => Some(i + 1)
  }

  /** `counts[lab] += 1; sources[lab].add(src)` for one row. */
  function Bump(t: seq<Entry>, row: Row): seq<Entry> {
    match Find(t, row.name)
    case Some(i) => t[i := Entry(row.name, t[i].count + 1, t[i].sources + {row.source})]
    case None => t + [Entry(row.name, 1, {row.source})]
  }

  /** The counting loop over all rows: one entry per label that occurs,
      each with the number of rows and the set of sources carrying that
      label. */
  function Tally(rows: seq<Row>): (r: seq<Entry>)
    ensures Tallied(r, rows)
    decreases |rows|
  {
    if |rows| == 0 then []
    else
      var init := rows[..|rows| - 1];
      assert rows == init + [rows[|rows| - 1]];
      BumpTallied(Tally(init), init, rows[|rows| - 1]);
      Bump(Tally(init), rows[|rows| - 1])
  }

  /** What the two dictionaries hold after reading `rows`: one entry per
      label that occurs, each with the number of rows and the set of sources
      carrying that label. */
  predicate Tallied(t: seq<Entry>, rows: seq<Row>) {
    && (forall i, j :: 0 <= i < j < |t| ==> t[i].name != t[j].name)
    && (forall i :: 0 <= i < |t| ==>
          t[i].count == multiset(Labels(rows))[t[i].name] && t[i].count >= 1)
    && (forall i :: 0 <= i < |t| ==> t[i].sources == SourcesOf(rows, t[i].name))
    && (forall k :: 0 <= k < |rows| ==> Find(t, rows[k].name).Some?)
  }

  /** One more row keeps the dictionaries right. */
  lemma BumpTallied(t: seq<Entry>, rows: seq<Row>, row: Row)
    requires Tallied(t, rows)
    ensures Tallied(Bump(t, row), rows + [row])
  {
    BumpEntries(t, rows, row);
    BumpCovers(t, rows, row);
  }

  lemma BumpEntries(t: seq<Entry>, rows: seq<Row>, row: Row)
    requires Tallied(t, rows)
    ensures var r := Bump(t, row);
      && (forall i, j :: 0 <= i < j < |r| ==> r[i].name != r[j].name)
      && (forall i :: 0 <= i < |r| ==>
            r[i].count == multiset(Labels(rows + [row]))[r[i].name] && r[i].count >= 1)
      && (forall i :: 0 <= i < |r| ==> r[i].sources == SourcesOf(rows + [row], r[i].name))
  {
    BumpSources(rows, row);
    match Find(t, row.name)
    case Some(i) => BumpFound(t, rows, row, i);
    case None => BumpNew(t, rows, row);
  }

  lemma BumpFound(t: seq<Entry>, rows: seq<Row>, row: Row, i: nat)
    requires Tallied(t, rows) && Find(t, row.name) == Some(i)
    requires forall lab ::
      SourcesOf(rows + [row], lab) == (if lab == row.name then SourcesOf(rows, lab) + {row.source} else SourcesOf(rows, lab))
    ensures var r := Bump(t, row);
      && (forall i, j :: 0 <= i < j < |r| ==> r[i].name != r[j].name)
      && (forall j :: 0 <= j < |r| ==>
            r[j].count == multiset(Labels(rows + [row]))[r[j].name] && r[j].count >= 1)
      && (forall j :: 0 <= j < |r| ==> r[j].sources == SourcesOf(rows + [row], r[j].name))
  {
    var rows' := rows + [row];
    var r := Bump(t, row);
    assert Labels(rows') == Labels(rows) + [row.name];
    var ms := multiset(Labels(rows'));
    assert ms == multiset(Labels(rows)) + multiset{row.name};
    forall j | 0 <= j < |r|
      ensures r[j].count == ms[r[j].name] && r[j].count >= 1
      ensures r[j].sources == SourcesOf(rows', r[j].name)
    {
      if j != i {
        assert r[j] == t[j] && t[j].name != row.name;
      }
    }
  }

  lemma BumpNew(t: seq<Entry>, rows: seq<Row>, row: Row)
    requires Tallied(t, rows) && Find(t, row.name).None?
    requires forall lab ::
      SourcesOf(rows + [row], lab) == (if lab == row.name then SourcesOf(rows, lab) + {row.source} else SourcesOf(rows, lab))
    ensures var r := Bump(t, row);
      && (forall i, j :: 0 <= i < j < |r| ==> r[i].name != r[j].name)
      && (forall j :: 0 <= j < |r| ==>
            r[j].count == multiset(Labels(rows + [row]))[r[j].name] && r[j].count >= 1)
      && (forall j :: 0 <= j < |r| ==> r[j].sources == SourcesOf(rows + [row], r[j].name))
  {
    var rows' := rows + [row];
    var r := Bump(t, row);
    assert Labels(rows') == Labels(rows) + [row.name];
    var ms := multiset(Labels(rows'));
    assert ms == multiset(Labels(rows)) + multiset{row.name};
    AbsentLabel(t, rows, row.name);
    var e := Entry(row.name, 1, {row.source});
    assert r == t + [e];
    assert ms[row.name] == 1;
    assert SourcesOf(rows', row.name) == {row.source};
    forall j | 0 <= j < |t|
      ensures r[j].count == ms[r[j].name] && r[j].count >= 1
      ensures r[j].sources == SourcesOf(rows', r[j].name)
    {
      assert r[j] == t[j] && t[j].name != row.name;
    }
    assert r[|t|] == e;
  }

  /** A label without an entry occurs in no row. */
  lemma AbsentLabel(t: seq<Entry>, rows: seq<Row>, lab: string)
    requires Tallied(t, rows) && Find(t, lab).None?
    ensures multiset(Labels(rows))[lab] == 0 && SourcesOf(rows, lab) == {}
  {
    assert forall k :: 0 <= k < |rows| ==> rows[k].name != lab;
    assert lab !in Labels(rows);
    forall src
      ensures src !in SourcesOf(rows, lab)
    {
      SourcesOfMeaning(rows, lab, src);
    }
  }

  lemma BumpSources(rows: seq<Row>, row: Row)
    ensures forall lab ::
      SourcesOf(rows + [row], lab) == (if lab == row.name then SourcesOf(rows, lab) + {row.source} else SourcesOf(rows, lab))
  {
    var rows' := rows + [row];
    assert rows'[..|rows'| - 1] == rows;
  }

  lemma BumpCovers(t: seq<Entry>, rows: seq<Row>, row: Row)
    requires forall k :: 0 <= k < |rows| ==> Find(t, rows[k].name).Some?
    ensures forall k :: 0 <= k < |rows| + 1 ==> Find(Bump(t, row), (rows + [row])[k].name).Some?
  {
    var r := Bump(t, row);
    var rows' := rows + [row];
    assert |r| >= |t|;
    assert forall j :: 0 <= j < |t| ==> r[j].name == t[j].name;
    forall k | 0 <= k < |rows'|
      ensures Find(r, rows'[k].name).Some?
    {
      if k < |rows| {
        var j := Find(t, rows[k].name).value;
        FindSome(r, j);
      } else {
        match Find(t, row.name)
        case Some(i) => FindSome(r, i);
        case None => FindSome(r, |t|);
      }
    }
  }

  lemma {:induction false} FindSome(t: seq<Entry>, i: nat)
    requires i < |t|
    ensures Find(t, t[i].name).Some?
    decreases i
  {
    if i > 0 && t[0].name != t[i].name {
      FindSome(t[1..], i - 1);
    }
  }

  // ---------------------------------------------------------------------------
  // Summaries

  /** `max(xs) if xs else 0` on counts. */
  function MaxCount(xs: seq<nat>): (m: nat)
    ensures forall k :: 0 <= k < |xs| ==> xs[k] <= m
    ensures |xs| > 0 ==> exists k :: 0 <= k < |xs| && xs[k] == m
    ensures |xs| == 0 ==> m == 0
    decreases |xs|
  {
    if |xs| == 0 then 0
    else
      var m := MaxCount(xs[..|xs| - 1]);
      assert forall k :: 0 <= k < |xs| - 1 ==> xs[..|xs| - 1][k] == xs[k];
      if xs[|xs| - 1] >= m then xs[|xs| - 1] else m
  }

  /** `min(xs) if xs else 0`. */
  function MinCount(xs: seq<nat>): (m: nat)
    ensures forall k :: 0 <= k < |xs| ==> m <= xs[k]
    ensures |xs| > 0 ==> exists k :: 0 <= k < |xs| && xs[k] == m
    ensures |xs| == 0 ==> m == 0
    decreases |xs|
  {
    if |xs| == 0 then 0
    else if |xs| == 1 then xs[0]
    else
      var m := MinCount(xs[..|xs| - 1]);
      assert forall k :: 0 <= k < |xs| - 1 ==> xs[..|xs| - 1][k] == xs[k];
      if xs[|xs| - 1] <= m then xs[|xs| - 1] else m
  }

  function Counts(t: seq<Entry>): (cs: seq<nat>)
    ensures |cs| == |t| && forall i :: 0 <= i < |t| ==> cs[i] == t[i].count
  {
    seq(|t|, i requires 0 <= i < |t| => t[i].count)
  }

  /** The counts of every other label. */
  function Others(t: seq<Entry>, i: nat): (cs: seq<nat>)
    requires i < |t|
    ensures |cs| == |t| - 1
    ensures forall j :: 0 <= j < |t| && j != i ==> t[j].count in cs
    ensures forall c :: c in cs ==> exists j :: 0 <= j < |t| && j != i && t[j].count == c
  {
    var cs := Counts(t[..i]) + Counts(t[i + 1..]);
    assert forall j :: 0 <= j < i ==> cs[j] == t[j].count;
    assert forall j :: i < j < |t| ==> cs[j - 1] == t[j].count;
    cs
  }

  /** `deltas`: each label's count minus the largest other count. */
  function Deltas(t: seq<Entry>): (ds: seq<int>)
    ensures |ds| == |t|
  {
    seq(|t|, i requires 0 <= i < |t| => t[i].count - MaxCount(Others(t, i)))
  }

  /** Label `i` strictly outnumbers every other label. */
  predicate Outnumbers(t: seq<Entry>, i: nat)
    requires i < |t|
  {
    forall j :: 0 <= j < |t| && j != i ==> t[j].count < t[i].count
  }

  /** No label outnumbers label `i`. */
  predicate Commonest(t: seq<Entry>, i: nat)
    requires i < |t|
  {
    forall j :: 0 <= j < |t| ==> t[j].count <= t[i].count
  }

  /** A delta is positive exactly when its label strictly outnumbers every
      other label, and non-negative exactly when no label outnumbers it. */
  lemma DeltaPositive(t: seq<Entry>, i: nat)
    requires i < |t| && forall j :: 0 <= j < |t| ==> t[j].count >= 1
    ensures Deltas(t)[i] > 0 <==> Outnumbers(t, i)
    ensures Deltas(t)[i] >= 0 <==> Commonest(t, i)
  {
    DeltaAt(t, i);
    OthersMax(t, i);
    DeltaSign(t, i, MaxCount(Others(t, i)));
  }

  /** The sign of `count - m` for `m` the largest other count. */
  lemma DeltaSign(t: seq<Entry>, i: nat, m: nat)
    requires i < |t| && forall j :: 0 <= j < |t| ==> t[j].count >= 1
    requires forall j :: 0 <= j < |t| && j != i ==> t[j].count <= m
    requires |t| > 1 ==> exists j :: 0 <= j < |t| && j != i && t[j].count == m
    requires |t| == 1 ==> m == 0
    ensures t[i].count - m > 0 <==> Outnumbers(t, i)
    ensures t[i].count - m >= 0 <==> Commonest(t, i)
  {
    var d := t[i].count - m;
    if Outnumbers(t, i) {
      if |t| > 1 {
        var j :| 0 <= j < |t| && j != i && t[j].count == m;
      }
      assert d > 0;
    } else {
      var j :| 0 <= j < |t| && j != i && t[j].count >= t[i].count;
      assert d <= 0;
    }
    if Commonest(t, i) {
      if |t| > 1 {
        var j :| 0 <= j < |t| && j != i && t[j].count == m;
      }
      assert d >= 0;
    } else {
      var j :| 0 <= j < |t| && t[j].count > t[i].count;
      assert d < 0;
    }
  }

  lemma DeltaAt(t: seq<Entry>, i: nat)
    requires i < |t|
    ensures Deltas(t)[i] == t[i].count - MaxCount(Others(t, i))
  {
  }

  /** The largest other count bounds every other label's count and, when
      there is another label, is one of them. */
  lemma OthersMax(t: seq<Entry>, i: nat)
    requires i < |t|
    ensures forall j :: 0 <= j < |t| && j != i ==> t[j].count <= MaxCount(Others(t, i))
    ensures |t| > 1 ==> exists j :: 0 <= j < |t| && j != i && t[j].count == MaxCount(Others(t, i))
    ensures |t| == 1 ==> MaxCount(Others(t, i)) == 0
  {
    var os := Others(t, i);
    var m := MaxCount(os);
    forall j | 0 <= j < |t| && j != i
      ensures t[j].count <= m
    {
      assert t[j].count in os;
    }
    if |t| > 1 {
      var k :| 0 <= k < |os| && os[k] == m;
      assert os[k] in os;
    }
  }

  /** At most one delta is positive. */
  lemma OnePositiveDelta(t: seq<Entry>, i: nat, j: nat)
    requires i < |t| && j < |t| && forall k :: 0 <= k < |t| ==> t[k].count >= 1
    requires Deltas(t)[i] > 0 && Deltas(t)[j] > 0
    ensures i == j
  {
    DeltaPositive(t, i);
    DeltaPositive(t, j);
  }

  datatype Quantiles = Quantiles(p5: real, p50: real, p95: real)

  /** `_quantile` at a fraction, which always succeeds. */
  function QuantileAt(values: seq<real>, q: real): (r: real)
    requires 0.0 <= q <= 1.0
    ensures Quantile(values, q) == Ok(r)
  {
    if |values| == 0 then 0.0
    else
      QuantileBounds(values, q);
      Quantile(values, q).value
  }

  function QuantilesOf(values: seq<real>): Quantiles {
    Quantiles(QuantileAt(values, 0.05), QuantileAt(values, 0.5), QuantileAt(values, 0.95))
  }

  function CountValues(t: seq<Entry>): (vs: seq<real>)
    ensures |vs| == |t| && forall i :: 0 <= i < |t| ==> vs[i] == t[i].count as real
  {
    seq(|t|, i requires 0 <= i < |t| => t[i].count as real)
  }

  function DeltaValues(t: seq<Entry>): (vs: seq<real>)
    ensures |vs| == |t|
  {
    var ds := Deltas(t);
    seq(|t|, i requires 0 <= i < |t| => ds[i] as real)
  }

  function Diversities(t: seq<Entry>): (ds: seq<nat>)
    ensures |ds| == |t| && forall i :: 0 <= i < |t| ==> ds[i] == |t[i].sources|
  {
    seq(|t|, i requires 0 <= i < |t| => |t[i].sources|)
  }

  /** The output file's fields. */
  datatype Calibration = Calibration(
    eq: Quantiles, dq: Quantiles, rq: Quantiles,
    diversityMin: nat, sprtAccept: real, sprtReject: real,
    seed: int, createdUtc: string, calibrationHash: string)

  function QuantilesJson(q: Quantiles): Json.Value {
    Json.Dict([("p5", RealJson(q.p5)), ("p50", RealJson(q.p50)), ("p95", RealJson(q.p95))])
  }

  function RealJson(x: real): Json.Value {
    Json.Float(PyFloat.Finite(x))
  }

  /** The mapping that is hashed: every field except `created_utc`. */
  function Core(eq: Quantiles, dq: Quantiles, rq: Quantiles, diversityMin: nat, accept: real, seed: int): Json.Value {
    Json.Dict([
      ("E_q", QuantilesJson(eq)),
      ("\U{0394}_q", QuantilesJson(dq)),
      ("r_q", QuantilesJson(rq)),
      ("diversity_min", Json.Int(diversityMin)),
      ("sprt", Json.Dict([("accept", RealJson(accept)), ("reject", RealJson(0.0))])),
      ("seed", Json.Int(seed))])
  }

  /** `calibrate(manifest, out, seed)` on the parsed manifest rows. */
  function Calibrate(vs: seq<Json.Value>, seed: int, now: string, mhash: Json.Value -> string): (r: Result<Calibration>)
    ensures r.Ok? <==> ReadRows(vs).Ok?
    ensures r.Ok? ==> r.value.seed == seed && r.value.createdUtc == now && r.value.sprtReject == 0.0
    ensures r.Ok? ==> r.value.sprtAccept == r.value.rq.p50
  {
    var rows :- ReadRows(vs);
    var t := Tally(rows);
    var rq := QuantilesOf(CountValues(t));
    var eq := QuantilesOf(CountValues(t));
    var dq := QuantilesOf(DeltaValues(t));
    var dmin := MinCount(Diversities(t));
    var accept := QuantileAt(CountValues(t), 0.5);
    Ok(Calibration(eq, dq, rq, dmin, accept, 0.0, seed, now,
                   mhash(Core(eq, dq, rq, dmin, accept, seed))))
  }

  /** The summary is computed from the rows: the diversity minimum is the
      fewest distinct sources any label has (0 for no rows), and the median
      count lies between the counts of two labels present. */
  predicate Summarised(c: Calibration, rows: seq<Row>) {
    && (|rows| == 0 ==> c.diversityMin == 0 && c.rq == Quantiles(0.0, 0.0, 0.0))
    && (forall k :: 0 <= k < |rows| ==> c.diversityMin <= |SourcesOf(rows, rows[k].name)|)
    && (|rows| > 0 ==> exists k :: 0 <= k < |rows| && c.diversityMin == |SourcesOf(rows, rows[k].name)|)
    && (|rows| > 0 ==> exists k :: 0 <= k < |rows| && CountOf(rows, rows[k].name) as real <= c.rq.p50)
    && (|rows| > 0 ==> exists k :: 0 <= k < |rows| && c.rq.p50 <= CountOf(rows, rows[k].name) as real)
  }

  lemma CalibrateSummary(vs: seq<Json.Value>, seed: int, now: string, mhash: Json.Value -> string)
    requires Calibrate(vs, seed, now, mhash).Ok?
    ensures Summarised(Calibrate(vs, seed, now, mhash).value, ReadRows(vs).value)
  {
    var rows := ReadRows(vs).value;
    CalibrateFields(vs, seed, now, mhash);
    SummaryFacts(Tally(rows), rows, Calibrate(vs, seed, now, mhash).value);
  }

  lemma SummaryFacts(t: seq<Entry>, rows: seq<Row>, c: Calibration)
    requires Tallied(t, rows) && (|rows| == 0 ==> t == [])
    requires c.diversityMin == MinCount(Diversities(t)) && c.rq == QuantilesOf(CountValues(t))
    ensures Summarised(c, rows)
  {
    DiversityMinFacts(t, rows);
    if |rows| > 0 {
      CountQuantileFacts(t, rows, 0.5);
    } else {
      assert CountValues(t) == [];
    }
  }

  lemma CalibrateFields(vs: seq<Json.Value>, seed: int, now: string, mhash: Json.Value -> string)
    requires Calibrate(vs, seed, now, mhash).Ok?
    ensures Calibrate(vs, seed, now, mhash).value.diversityMin == MinCount(Diversities(Tally(ReadRows(vs).value)))
    ensures Calibrate(vs, seed, now, mhash).value.rq == QuantilesOf(CountValues(Tally(ReadRows(vs).value)))
  {
  }

  /** Number of rows labelled `lab`. */
  function CountOf(rows: seq<Row>, lab: string): nat {
    multiset(Labels(rows))[lab]
  }

  lemma DiversityMinFacts(t: seq<Entry>, rows: seq<Row>)
    requires Tallied(t, rows)
    ensures forall k :: 0 <= k < |rows| ==> MinCount(Diversities(t)) <= |SourcesOf(rows, rows[k].name)|
    ensures |rows| > 0 ==> exists k :: 0 <= k < |rows| && MinCount(Diversities(t)) == |SourcesOf(rows, rows[k].name)|
  {
    var ds := Diversities(t);
    forall k | 0 <= k < |rows|
      ensures MinCount(ds) <= |SourcesOf(rows, rows[k].name)|
    {
      var i := Find(t, rows[k].name).value;
      assert ds[i] == |SourcesOf(rows, rows[k].name)|;
    }
    if |rows| > 0 {
      assert Find(t, rows[0].name).Some?;
      var i :| 0 <= i < |ds| && ds[i] == MinCount(ds);
      var k := EntryRow(t, rows, i);
    }
  }

  lemma CountQuantileFacts(t: seq<Entry>, rows: seq<Row>, q: real)
    requires Tallied(t, rows) && |rows| > 0 && 0.0 <= q <= 1.0
    ensures exists k :: 0 <= k < |rows| && CountOf(rows, rows[k].name) as real <= QuantileAt(CountValues(t), q)
    ensures exists k :: 0 <= k < |rows| && QuantileAt(CountValues(t), q) <= CountOf(rows, rows[k].name) as real
  {
    assert Find(t, rows[0].name).Some?;
    var vals := CountValues(t);
    QuantileBounds(vals, q);
    var x := QuantileAt(vals, q);
    var a :| 0 <= a < |vals| && vals[a] <= x;
    var b :| 0 <= b < |vals| && x <= vals[b];
    var ka := EntryRow(t, rows, a);
    var kb := EntryRow(t, rows, b);
    assert CountOf(rows, rows[ka].name) as real <= x;
    assert x <= CountOf(rows, rows[kb].name) as real;
  }

  /** Every entry stands for a row that carries its label. */
  lemma EntryRow(t: seq<Entry>, rows: seq<Row>, i: nat) returns (k: nat)
    requires Tallied(t, rows) && i < |t|
    ensures k < |rows| && rows[k].name == t[i].name
  {
    assert t[i].name in multiset(Labels(rows));
    var j :| 0 <= j < |rows| && Labels(rows)[j] == t[i].name;
    k := j;
  }

  /** The two count summaries coincide: `E_q` is `r_q` of the same counts. */
  lemma EqualsRq(vs: seq<Json.Value>, seed: int, now: string, mhash: Json.Value -> string)
    requires Calibrate(vs, seed, now, mhash).Ok?
    ensures Calibrate(vs, seed, now, mhash).value.eq == Calibrate(vs, seed, now, mhash).value.rq
  {
  }

  /** The timestamp does not reach the hash: runs at two different times
      agree on every field but `created_utc`. */
  lemma HashIgnoresClock(vs: seq<Json.Value>, seed: int, now1: string, now2: string, mhash: Json.Value -> string)
    requires Calibrate(vs, seed, now1, mhash).Ok?
    ensures Calibrate(vs, seed, now2, mhash).Ok?
    ensures Calibrate(vs, seed, now2, mhash).value
         == Calibrate(vs, seed, now1, mhash).value.(createdUtc := now2)
  {
  }
}
