/** The line reader of the roadmap checker: the constrained YAML subset of
    the roadmap file, read line by line into a schema version and a list of
    stage dictionaries whose values are strings or lists of strings. Reading
    the file is left out: the reader receives its lines, each with its
    line terminator. */
module RoadmapParse {
  import opened Base
  import opened Text

  /** A stage value: a (quote-stripped) string, or a list of strings. */
  datatype Field = Scalar(s: string) | Items(items: seq<string>)

  /** A stage dictionary, in insertion order. */
  type Stage = seq<(string, Field)>

  /** `stage.get(key)`. */
  function Get(stage: Stage, key: string): (r: Option<Field>)
    ensures r.Some? ==> exists i :: 0 <= i < |stage| && stage[i] == (key, r.value)
    ensures r.None? ==> forall i :: 0 <= i < |stage| ==> stage[i].0 != key
  {
    if |stage| == 0 then None
    else if stage[0].0 == key then Some(stage[0].1)
    else
      var r := Get(stage[1..], key);
      assert r.Some? ==> exists i :: 0 <= i < |stage| && stage[i] == (key, r.value) by {
        if r.Some? {
          var j :| 0 <= j < |stage[1..]| && stage[1..][j] == (key, r.value);
          assert stage[j + 1] == (key, r.value);
        }
      }
      assert forall i :: 1 <= i < |stage| ==> stage[i] == stage[1..][i - 1];
      r
  }

  /** `stage[key] = value`: replaces in place, or appends a new key. */
  function Set(stage: Stage, key: string, value: Field): Stage {
    if |stage| == 0 then [(key, value)]
    else if stage[0].0 == key then [(key, value)] + stage[1..]
    else [stage[0]] + Set(stage[1..], key, value)
  }

  /** After `stage[key] = value`, `key` reads `value` and every other key
      reads as before. */
  lemma {:induction false} SetGet(stage: Stage, key: string, value: Field, k: string)
    ensures Get(Set(stage, key, value), k) == if k == key then Some(value) else Get(stage, k)
    decreases |stage|
  {
    if |stage| > 0 && stage[0].0 != key {
      SetGet(stage[1..], key, value, k);
      assert Set(stage, key, value)[1..] == Set(stage[1..], key, value);
    }
  }

  // ---------------------------------------------------------------------------
  // Classifying a line

  /** `raw_line.rstrip("\n")`. */
  function Body(raw: string): string {
    RStripChar(raw, '\n')
  }

  /** `value.strip().strip('"')`. */
  function Unquote(s: string): string {
    StripChar(Strip(s), '"')
  }

  /** How `_parse_roadmap` treats a line, decided by the tests it makes, in
      its order. */
  datatype LineKind =
    | Ignored     // blank, or starting with '#'
    | Unindented  // may set schema_version
    | StageLine   // "  - key: value"
    | Deep        // indented by four spaces
    | Shallow     // any other indentation: ignored

  function Kind(raw: string): (k: LineKind)
    ensures k == Deep ==> |Body(raw)| >= 4
    ensures k == StageLine ==> |Body(raw)| >= 4
  {
    if |Strip(raw)| == 0 || StartsWith(raw, "#") then Ignored
    else if !StartsWith(Body(raw), " ") then Unindented
    else if StartsWith(Body(raw), "  - ") then StageLine
    else if StartsWith(Body(raw), "    ") then Deep
    else Shallow
  }

  predicate Skipped(raw: string) {
    Kind(raw) == Ignored
  }

  /** An unindented line; it only ever sets `schema_version`. */
  predicate TopLevel(raw: string) {
    Kind(raw) == Unindented
  }

  predicate SchemaLine(raw: string) {
    TopLevel(raw) && Strip(Partition(Body(raw), ':').0) == "schema_version"
  }

  function SchemaValue(raw: string): string {
    Unquote(Partition(Body(raw), ':').2)
  }

  /** A "  - key: value" line, which starts a stage. */
  predicate StageStart(raw: string) {
    Kind(raw) == StageLine
  }

  /** The first entry of the stage a `StageStart` line opens. */
  function StageHead(raw: string): (string, Field)
    requires StageStart(raw)
  {
    var p := Partition(Body(raw)[4..], ':');
    (Strip(p.0), Scalar(Unquote(p.2)))
  }

  /** A line indented by four spaces or more. */
  predicate Nested(raw: string) {
    Kind(raw) == Deep
  }

  /** A nested "- item" line. */
  predicate ItemLine(raw: string) {
    Nested(raw) && StartsWith(LStrip(Body(raw)[4..]), "-")
  }

  /** The item of a "- item" line: what follows the dash, unquoted. */
  function ItemValue(raw: string): string {
    var line := Body(raw);
    var inner := LStrip(line[Min(4, |line|)..]);
    Unquote(if |inner| > 0 then inner[1..] else inner)
  }

  /** A nested "key:" line with nothing after the colon: it opens a list. */
  predicate Opener(raw: string) {
    Nested(raw) && !ItemLine(raw) && |Strip(Partition(Body(raw)[4..], ':').2)| == 0
  }

  function NestedKey(raw: string): string
    requires Nested(raw)
  {
    Strip(Partition(Body(raw)[4..], ':').0)
  }

  // ---------------------------------------------------------------------------
  // Reading

  /** The reader's state: the schema version seen last, the stages so far
      (the current stage is the last one) and the key of the current stage's
      open list. */
  datatype Reader = Reader(schemaVersion: Option<string>, stages: seq<Stage>, active: Option<string>)

  /** The open list, when there is one, belongs to the current stage. */
  predicate Open(st: Reader) {
    st.active.Some? ==>
      (|st.stages| > 0 && Get(st.stages[|st.stages| - 1], st.active.value).Some?
       && Get(st.stages[|st.stages| - 1], st.active.value).value.Items?)
  }

  function Start(): Reader {
    Reader(None, [], None)
  }

  function Last(stages: seq<Stage>): Stage
    requires |stages| > 0
  {
    stages[|stages| - 1]
  }

  function UpdateLast(stages: seq<Stage>, s: Stage): (r: seq<Stage>)
    requires |stages| > 0
    ensures |r| == |stages| && r[|r| - 1] == s && r[..|r| - 1] == stages[..|stages| - 1]
  {
    stages[..|stages| - 1] + [s]
  }

  /** One line of `_parse_roadmap`'s loop. A line below the first stage
      start that is neither unindented nor a stage start is ignored. */
  function Step(st: Reader, raw: string): (r: Result<Reader>)
    requires Open(st)
    ensures r.Err? <==> ItemLine(raw) && |st.stages| > 0 && st.active.None?
    ensures r.Err? ==> r.error.kind == RoadmapError
    ensures r.Ok? ==> Open(r.value)
  {
    match Kind(raw)
    case Ignored => Ok(st)
    case Unindented =>
      if SchemaLine(raw) then Ok(st.(schemaVersion := Some(SchemaValue(raw)))) else Ok(st)
    case StageLine => Ok(Reader(st.schemaVersion, st.stages + [[StageHead(raw)]], None))
    case Shallow => Ok(st)
    case Deep =>
      if |st.stages| == 0 then Ok(st)
      else if ItemLine(raw) then ItemStep(st, raw)
      else Ok(FieldStep(st, raw))
  }

  /** A step keeps the schema version unless the line is a
      `schema_version` line, and adds a stage exactly on a stage start. */
  lemma StepTracks(st: Reader, raw: string)
    requires Open(st) && Step(st, raw).Ok?
    ensures Step(st, raw).value.schemaVersion == if SchemaLine(raw) then Some(SchemaValue(raw)) else st.schemaVersion
    ensures |Step(st, raw).value.stages| == |st.stages| + (if StageStart(raw) then 1 else 0)
  {
  }

  /** A "- item" line: appended to the open list, or RoadmapError when no
      list is open. */
  function ItemStep(st: Reader, raw: string): (r: Result<Reader>)
    requires Open(st) && |st.stages| > 0 && ItemLine(raw)
    ensures r.Err? <==> st.active.None?
    ensures r.Ok? ==> Open(r.value) && r.value.schemaVersion == st.schemaVersion && r.value.active == st.active
    ensures r.Ok? ==> |r.value.stages| == |st.stages| && r.value.stages[..|st.stages| - 1] == st.stages[..|st.stages| - 1]
    ensures r.Ok? ==>
      (Get(r.value.stages[|st.stages| - 1], st.active.value) ==
       Some(Items(Get(st.stages[|st.stages| - 1], st.active.value).value.items + [ItemValue(raw)])))
  {
    match st.active
    case None => Raise(RoadmapError, "list entry encountered without active list")
    case Some(k) =>
      var current := st.stages[|st.stages| - 1];
      var v := Items(Get(current, k).value.items + [ItemValue(raw)]);
      SetGet(current, k, v, k);
      Ok(st.(stages := UpdateLast(st.stages, Set(current, k, v))))
  }

  /** A four-space "key: value" line sets the key in the current stage; a
      "key:" line with nothing after the colon opens a new list under it. */
  function FieldStep(st: Reader, raw: string): (r: Reader)
    requires |st.stages| > 0 && Nested(raw) && !ItemLine(raw)
    ensures Open(r) && r.schemaVersion == st.schemaVersion
    ensures |r.stages| == |st.stages| && r.stages[..|st.stages| - 1] == st.stages[..|st.stages| - 1]
    ensures Opener(raw) ==>
      (r.active == Some(NestedKey(raw)) && Get(r.stages[|st.stages| - 1], NestedKey(raw)) == Some(Items([])))
    ensures !Opener(raw) ==>
      (r.active.None?
       && Get(r.stages[|st.stages| - 1], NestedKey(raw)) == Some(Scalar(Unquote(Partition(Body(raw)[4..], ':').2))))
  {
    var current := st.stages[|st.stages| - 1];
    var key := NestedKey(raw);
    var value := Strip(Partition(Body(raw)[4..], ':').2);
    if |value| > 0 then
      SetGet(current, key, Scalar(StripChar(value, '"')), key);
      st.(stages := UpdateLast(st.stages, Set(current, key, Scalar(StripChar(value, '"')))), active := None)
    else
      SetGet(current, key, Items([]), key);
      st.(stages := UpdateLast(st.stages, Set(current, key, Items([]))), active := Some(key))
  }

  /** The loop of `_parse_roadmap` over the first lines; the first failing
      line's error is the result. */
  function Read(lines: seq<string>): (r: Result<Reader>)
    ensures r.Ok? ==> Open(r.value)
    ensures r.Err? ==> r.error.kind == RoadmapError
    decreases |lines|
  {
    if |lines| == 0 then Ok(Start())
    else
      var st :- Read(lines[..|lines| - 1]);
      Step(st, lines[|lines| - 1])
  }

  /** What `_parse_roadmap` returns. */
  datatype Roadmap = Roadmap(schemaVersion: string, stages: seq<Stage>)

  /** `_parse_roadmap`: RoadmapError when a list item has no open list, or
      when no `schema_version` line was seen. A roadmap read carries the
      last `schema_version` line's value and one stage per stage line. */
  function ParseRoadmap(lines: seq<string>): (r: Result<Roadmap>)
    ensures r.Err? ==> r.error.kind == RoadmapError
    ensures r.Ok? ==> Some(r.value.schemaVersion) == LastSchema(lines)
    ensures r.Ok? ==> |r.value.stages| == CountWhere(lines, StageStart)
  {
    var st :- Read(lines);
    ReadTracks(lines);
    if st.schemaVersion.None? then Raise(RoadmapError, "schema_version missing from roadmap")
    else Ok(Roadmap(st.schemaVersion.value, st.stages))
  }

  // ---------------------------------------------------------------------------
  // Properties

  /** The value of the last `schema_version` line, if any. */
  function LastSchema(lines: seq<string>): Option<string>
    decreases |lines|
  {
    if |lines| == 0 then None
    else if SchemaLine(lines[|lines| - 1]) then Some(SchemaValue(lines[|lines| - 1]))
    else LastSchema(lines[..|lines| - 1])
  }

  /** There is a last `schema_version` line exactly when there is one. */
  lemma {:induction false} LastSchemaFound(lines: seq<string>)
    ensures LastSchema(lines).None? <==> CountWhere(lines, SchemaLine) == 0
    decreases |lines|
  {
    if |lines| > 0 {
      LastSchemaFound(lines[..|lines| - 1]);
    }
  }

  /** The value found is that of a `schema_version` line. */
  lemma {:induction false} LastSchemaFrom(lines: seq<string>)
    requires LastSchema(lines).Some?
    ensures exists i :: 0 <= i < |lines| && SchemaLine(lines[i]) && LastSchema(lines).value == SchemaValue(lines[i])
    decreases |lines|
  {
    var init := lines[..|lines| - 1];
    var last := lines[|lines| - 1];
    if !SchemaLine(last) {
      LastSchemaFrom(init);
      var i :| 0 <= i < |init| && SchemaLine(init[i]) && LastSchema(init).value == SchemaValue(init[i]);
      assert init[i] == lines[i];
    }
  }

  /** The reader keeps the last `schema_version` line's value, and counts
      one stage per stage-start line. */
  lemma {:induction false} ReadTracks(lines: seq<string>)
    requires Read(lines).Ok?
    ensures Read(lines).value.schemaVersion == LastSchema(lines)
    ensures |Read(lines).value.stages| == CountWhere(lines, StageStart)
    decreases |lines|
  {
    if |lines| > 0 {
      ReadTracks(lines[..|lines| - 1]);
      StepTracks(Read(lines[..|lines| - 1]).value, lines[|lines| - 1]);
    }
  }

  /** Without a `schema_version` line the roadmap is refused; with one, the
      last such line's value is the result's schema version. */
  lemma ParseNeedsSchema(lines: seq<string>)
    ensures CountWhere(lines, SchemaLine) == 0 ==>
      ParseRoadmap(lines).Err? && ParseRoadmap(lines).error.kind == RoadmapError
    ensures ParseRoadmap(lines).Ok? ==>
      Some(ParseRoadmap(lines).value.schemaVersion) == LastSchema(lines)
      && |ParseRoadmap(lines).value.stages| == CountWhere(lines, StageStart)
  {
    LastSchemaFound(lines);
    if Read(lines).Ok? {
      ReadTracks(lines);
    }
  }

  /** Reading one more line is one more step. */
  lemma ReadSnoc(lines: seq<string>, raw: string)
    ensures Read(lines + [raw]) == if Read(lines).Err? then Read(lines) else Step(Read(lines).value, raw)
  {
    assert (lines + [raw])[..|lines|] == lines;
  }

  /** A blank or comment line anywhere changes nothing. */
  lemma {:induction false} SkippedLineIgnored(xs: seq<string>, b: string, ys: seq<string>)
    requires Skipped(b)
    ensures Read(xs + [b] + ys) == Read(xs + ys)
    decreases |ys|
  {
    if |ys| == 0 {
      assert xs + [b] + ys == xs + [b];
      assert xs + ys == xs;
      ReadSnoc(xs, b);
    } else {
      var ys' := ys[..|ys| - 1];
      var y := ys[|ys| - 1];
      assert xs + [b] + ys == (xs + [b] + ys') + [y];
      assert xs + ys == (xs + ys') + [y];
      SkippedLineIgnored(xs, b, ys');
      ReadSnoc(xs + [b] + ys', y);
      ReadSnoc(xs + ys', y);
    }
  }

  /** A stage-start line appends a stage holding just its own key and
      value, and closes any open list. */
  lemma StageStartOpens(xs: seq<string>, raw: string)
    requires Read(xs).Ok? && StageStart(raw)
    ensures Read(xs + [raw]).Ok?
    ensures var st := Read(xs + [raw]).value;
      && st.stages == Read(xs).value.stages + [[StageHead(raw)]]
      && st.active.None?
  {
    ReadSnoc(xs, raw);
  }

  /** A list item right after a stage start has no open list and raises. */
  lemma ItemAfterStageStartRaises(xs: seq<string>, start: string, item: string)
    requires Read(xs).Ok? && StageStart(start) && ItemLine(item)
    ensures Read(xs + [start, item]).Err? && Read(xs + [start, item]).error.kind == RoadmapError
  {
    StageStartOpens(xs, start);
    assert xs + [start, item] == (xs + [start]) + [item];
    ReadSnoc(xs + [start], item);
  }

  /** Before the first stage every indented line other than a stage start is
      ignored. */
  lemma IndentedBeforeStagesIgnored(xs: seq<string>, raw: string)
    requires Read(xs).Ok? && |Read(xs).value.stages| == 0
    requires !Skipped(raw) && !TopLevel(raw) && !StageStart(raw)
    ensures Read(xs + [raw]) == Read(xs)
  {
    ReadSnoc(xs, raw);
  }

  function ItemValues(items: seq<string>): (r: seq<string>)
    ensures |r| == |items|
    decreases |items|
  {
    if |items| == 0 then [] else ItemValues(items[..|items| - 1]) + [ItemValue(items[|items| - 1])]
  }

  /** An opener line inside a stage, followed by item lines, leaves the
      current stage's key holding exactly the items' values, in order. */
  lemma {:induction false} ListCollects(xs: seq<string>, opener: string, items: seq<string>)
    requires Read(xs).Ok? && |Read(xs).value.stages| > 0 && Opener(opener)
    requires forall i :: 0 <= i < |items| ==> ItemLine(items[i])
    ensures Read(xs + [opener] + items).Ok?
    ensures |Read(xs + [opener] + items).value.stages| == |Read(xs).value.stages|
    ensures Read(xs + [opener] + items).value.active == Some(NestedKey(opener))
    ensures Get(Last(Read(xs + [opener] + items).value.stages), NestedKey(opener)) == Some(Items(ItemValues(items)))
    decreases |items|
  {
    if |items| == 0 {
      assert xs + [opener] + items == xs + [opener];
      ReadSnoc(xs, opener);
      var st := Read(xs).value;
      StepField(st, opener);
      var r := FieldStep(st, opener);
      assert Read(xs + [opener] + items) == Ok(r);
      assert Get(Last(r.stages), NestedKey(opener)) == Some(Items([]));
    } else {
      var init := items[..|items| - 1];
      var last := items[|items| - 1];
      SnocSplit(xs + [opener], items);
      ListCollects(xs, opener, init);
      ReadSnoc(xs + [opener] + init, last);
      var st := Read(xs + [opener] + init).value;
      StepItem(st, last);
      var r := ItemStep(st, last);
      assert Read(xs + [opener] + items) == r;
      var k := NestedKey(opener);
      assert Get(Last(st.stages), k) == Some(Items(ItemValues(init)));
      assert Get(Last(r.value.stages), k) == Some(Items(ItemValues(init) + [ItemValue(last)]));
    }
  }

  lemma StepItem(st: Reader, raw: string)
    requires Open(st) && |st.stages| > 0 && ItemLine(raw)
    ensures Step(st, raw) == ItemStep(st, raw)
  {
  }

  lemma StepField(st: Reader, raw: string)
    requires Open(st) && |st.stages| > 0 && Opener(raw)
    ensures Step(st, raw) == Ok(FieldStep(st, raw))
  {
  }

  lemma SnocSplit(xs: seq<string>, ys: seq<string>)
    requires |ys| > 0
    ensures xs + ys == (xs + ys[..|ys| - 1]) + [ys[|ys| - 1]]
  {
  }

}
