/** `build_manifest`: read seed records, hash each referenced file, drop
    records whose `(label, phash)` pair was seen before, and sort the rest
    by `(label, phash)`. File contents are looked up through `files` (None
    for a missing file) and SHA-256 hex digests through `hex`; writing the
    output file is left out. */
module Manifest {
  import opened Base
  import opened Text
  import opened Sorting
  import Json

  /** An output row: `source`, `path`, `license`, `phash`, `label`, `lang`. */
  datatype Entry = Entry(source: Json.Value, path: string, license: Json.Value,
                         phash: string, name: string, lang: Json.Value)

  function Key(e: Entry): (string, string) {
    (e.name, e.phash)
  }

  /** `phash_bytes`: the first 16 hex digits of the SHA-256 digest. */
  function PHash(data: seq<Byte>, hex: seq<Byte> -> string): (h: string)
    ensures |h| == Min(16, |hex(data)|) && h == hex(data)[..|h|]
  {
    PyPrefix(hex(data), 16)
  }

  /** `rec[k]` on a decoded record: a missing key raises KeyError. */
  function Field(rec: Json.Value, k: string): (r: Result<Json.Value>)
    ensures r.Ok? <==> rec.Dict? && Json.HasKey(rec.entries, k)
    ensures r.Ok? ==> Json.Lookup(rec.entries, k) == Some(r.value)
  {
    if !rec.Dict? then Raise(TypeError, "record is not a mapping")
    else match Json.Lookup(rec.entries, k)
      case None => Raise(KeyError, k)
      case Some(v) => Ok(v)
  }

  /** A field that the code uses as a string (a path or a sort key). */
  function TextField(rec: Json.Value, k: string): (r: Result<string>)
    ensures r.Ok? ==> Field(rec, k) == Ok(Json.Str(r.value))
  {
    var v :- Field(rec, k);
    if v.Str? then Ok(v.s) else Raise(TypeError, "expected a string")
  }

  /** The `(label, phash)` pair of a record, when its file can be read. */
  function KeyOf(rec: Json.Value, files: string -> Option<seq<Byte>>, hex: seq<Byte> -> string): (r: Result<(string, string)>)
  {
    var file :- TextField(rec, "file");
    var data :- match files(file)
      case None => Raise(FileNotFoundError, file)
      case Some(d) => Ok(d);
    var name :- TextField(rec, "label");
    Ok((name, PHash(data, hex)))
  }

  /** The row built for a record kept as the first with its pair. */
  function EntryOf(rec: Json.Value, key: (string, string)): (r: Result<Entry>)
    ensures r.Ok? ==> Key(r.value) == key
  {
    var source :- Field(rec, "source");
    var path :- TextField(rec, "file");
    var license :- Field(rec, "license");
    var lang :- Field(rec, "lang");
    Ok(Entry(source, path, license, key.1, key.0, lang))
  }

  /** The loop state: rows kept so far, pairs seen, duplicates dropped. */
  datatype Acc = Acc(rows: seq<Entry>, seen: set<(string, string)>, dupes: nat)

  /** One iteration of the loop. A duplicate is counted before its other
      fields are read. */
  function Step(acc: Acc, rec: Json.Value, files: string -> Option<seq<Byte>>, hex: seq<Byte> -> string): (r: Result<Acc>)
    ensures r.Ok? ==> KeyOf(rec, files, hex).Ok?
    ensures r.Ok? ==> var key := KeyOf(rec, files, hex).value;
      && r.value.seen == acc.seen + {key}
      && (key in acc.seen ==> r.value == acc.(dupes := acc.dupes + 1))
      && (key !in acc.seen ==> EntryOf(rec, key).Ok? && r.value == Acc(acc.rows + [EntryOf(rec, key).value], acc.seen + {key}, acc.dupes))
  {
    var key :- KeyOf(rec, files, hex);
    if key in acc.seen then Ok(acc.(dupes := acc.dupes + 1))
    else
      var e :- EntryOf(rec, key);
      Ok(Acc(acc.rows + [e], acc.seen + {key}, acc.dupes))
  }

  /** The loop over all records. Every record is either kept or counted as
      a duplicate, and one distinct pair is seen per kept row. */
  function Scan(recs: seq<Json.Value>, files: string -> Option<seq<Byte>>, hex: seq<Byte> -> string): (r: Result<Acc>)
    ensures r.Ok? ==> |r.value.rows| + r.value.dupes == |recs|
    ensures r.Ok? ==> |r.value.seen| == |r.value.rows|
    decreases |recs|
  {
    if |recs| == 0 then Ok(Acc([], {}, 0))
    else
      var acc :- Scan(recs[..|recs| - 1], files, hex);
      Step(acc, recs[|recs| - 1], files, hex)
  }

  /** Indices of the records whose pair does not occur earlier, in order. */
  function FirstIndices<K(==)>(keys: seq<K>): (idx: seq<nat>)
    ensures forall k :: 0 <= k < |idx| ==> idx[k] < |keys|
    ensures forall k, m :: 0 <= k < m < |idx| ==> idx[k] < idx[m]
    decreases |keys|
  {
    if |keys| == 0 then []
    else
      var init := keys[..|keys| - 1];
      var rest := FirstIndices(init);
      if keys[|keys| - 1] in init then rest else rest + [|keys| - 1]
  }

  /** An index is listed exactly when no earlier record has its pair. */
  lemma {:induction false} FirstIndicesSpec<K>(keys: seq<K>, i: nat)
    requires i < |keys|
    ensures i in FirstIndices(keys) <==> forall j :: 0 <= j < i ==> keys[j] != keys[i]
    decreases |keys|
  {
    var n := |keys| - 1;
    var init := keys[..n];
    assert forall j :: 0 <= j < n ==> init[j] == keys[j];
    if i < n {
      FirstIndicesSpec(init, i);
      assert i != n;
    } else {
      assert keys[n] in init <==> exists j :: 0 <= j < n && keys[j] == keys[n];
    }
  }

  /** The pairs of all records, when every one of them can be read. */
  function KeysOf(recs: seq<Json.Value>, files: string -> Option<seq<Byte>>, hex: seq<Byte> -> string): (ks: seq<(string, string)>)
    requires forall i :: 0 <= i < |recs| ==> KeyOf(recs[i], files, hex).Ok?
    ensures |ks| == |recs| && forall i :: 0 <= i < |recs| ==> ks[i] == KeyOf(recs[i], files, hex).value
  {
    seq(|recs|, i requires 0 <= i < |recs| => KeyOf(recs[i], files, hex).value)
  }

  /** What the loop computes when it completes: every record was readable,
      the kept rows are built from exactly the records whose pair occurs
      for the first time, in input order, and every other record counts as
      a duplicate. */
  predicate Scanned(recs: seq<Json.Value>, files: string -> Option<seq<Byte>>, hex: seq<Byte> -> string, acc: Acc) {
    && (forall i :: 0 <= i < |recs| ==> KeyOf(recs[i], files, hex).Ok?)
    && var keys := KeysOf(recs, files, hex);
       var first := FirstIndices(keys);
       && acc.seen == (set k | k in keys)
       && |acc.rows| == |first|
       && (forall k :: 0 <= k < |first| ==> EntryOf(recs[first[k]], keys[first[k]]) == Ok(acc.rows[k]))
       && |acc.rows| + acc.dupes == |recs|
  }

  lemma {:induction false} ScanSpec(recs: seq<Json.Value>, files: string -> Option<seq<Byte>>, hex: seq<Byte> -> string)
    requires Scan(recs, files, hex).Ok?
    ensures Scanned(recs, files, hex, Scan(recs, files, hex).value)
    decreases |recs|
  {
    if |recs| == 0 {
      assert KeysOf(recs, files, hex) == [];
    } else {
      var init := recs[..|recs| - 1];
      var rec := recs[|recs| - 1];
      assert init + [rec] == recs;
      ScanSpec(init, files, hex);
      var acc := Scan(init, files, hex).value;
      assert Scan(recs, files, hex) == Step(acc, rec, files, hex);
      ScanStep(init, rec, files, hex, acc);
    }
  }

  lemma ScanStep(recs: seq<Json.Value>, rec: Json.Value, files: string -> Option<seq<Byte>>, hex: seq<Byte> -> string, acc: Acc)
    requires Scanned(recs, files, hex, acc) && Step(acc, rec, files, hex).Ok?
    ensures Scanned(recs + [rec], files, hex, Step(acc, rec, files, hex).value)
  {
    var recs' := recs + [rec];
    var acc' := Step(acc, rec, files, hex).value;
    var key := KeyOf(rec, files, hex).value;
    KeysSnoc(recs, rec, files, hex);
    var keys := KeysOf(recs, files, hex);
    var keys' := KeysOf(recs', files, hex);
    assert (set k | k in keys') == (set k | k in keys) + {key};
    var first := FirstIndices(keys);
    var first' := FirstIndices(keys');
    FirstSnoc(keys, key);
    assert key in acc.seen <==> key in keys;
    if key in keys {
      RowsKept(recs, rec, files, hex, acc, acc');
    } else {
      RowsExtended(recs, rec, files, hex, acc, acc');
    }
  }

  /** A repeated pair leaves the kept rows as they were. */
  lemma RowsKept(recs: seq<Json.Value>, rec: Json.Value, files: string -> Option<seq<Byte>>, hex: seq<Byte> -> string,
                 acc: Acc, acc': Acc)
    requires Scanned(recs, files, hex, acc) && KeyOf(rec, files, hex).Ok?
    requires KeysOf(recs + [rec], files, hex) == KeysOf(recs, files, hex) + [KeyOf(rec, files, hex).value]
    requires FirstIndices(KeysOf(recs + [rec], files, hex)) == FirstIndices(KeysOf(recs, files, hex))
    requires acc'.rows == acc.rows
    ensures var keys' := KeysOf(recs + [rec], files, hex);
      var first' := FirstIndices(keys');
      forall k :: 0 <= k < |first'| ==> EntryOf((recs + [rec])[first'[k]], keys'[first'[k]]) == Ok(acc'.rows[k])
  {
    var recs' := recs + [rec];
    var keys := KeysOf(recs, files, hex);
    var keys' := KeysOf(recs', files, hex);
    var first := FirstIndices(keys);
    forall k | 0 <= k < |first|
      ensures EntryOf(recs'[first[k]], keys'[first[k]]) == Ok(acc'.rows[k])
    {
      assert recs'[first[k]] == recs[first[k]] && keys'[first[k]] == keys[first[k]];
    }
  }

  /** A new pair appends the row built from its record. */
  lemma RowsExtended(recs: seq<Json.Value>, rec: Json.Value, files: string -> Option<seq<Byte>>, hex: seq<Byte> -> string,
                     acc: Acc, acc': Acc)
    requires Scanned(recs, files, hex, acc) && KeyOf(rec, files, hex).Ok?
    requires KeysOf(recs + [rec], files, hex) == KeysOf(recs, files, hex) + [KeyOf(rec, files, hex).value]
    requires FirstIndices(KeysOf(recs + [rec], files, hex)) == FirstIndices(KeysOf(recs, files, hex)) + [|recs|]
    requires EntryOf(rec, KeyOf(rec, files, hex).value).Ok?
    requires acc'.rows == acc.rows + [EntryOf(rec, KeyOf(rec, files, hex).value).value]
    ensures var keys' := KeysOf(recs + [rec], files, hex);
      var first' := FirstIndices(keys');
      forall k :: 0 <= k < |first'| ==> EntryOf((recs + [rec])[first'[k]], keys'[first'[k]]) == Ok(acc'.rows[k])
  {
    var recs' := recs + [rec];
    var key := KeyOf(rec, files, hex).value;
    var keys := KeysOf(recs, files, hex);
    var keys' := KeysOf(recs', files, hex);
    var first := FirstIndices(keys);
    var first' := FirstIndices(keys');
    forall k | 0 <= k < |first'|
      ensures EntryOf(recs'[first'[k]], keys'[first'[k]]) == Ok(acc'.rows[k])
    {
      if k < |first| {
        assert first'[k] == first[k] && recs'[first[k]] == recs[first[k]] && keys'[first[k]] == keys[first[k]];
      } else {
        assert first'[k] == |recs| && recs'[|recs|] == rec && keys'[|recs|] == key;
      }
    }
  }

  lemma KeysSnoc(recs: seq<Json.Value>, rec: Json.Value, files: string -> Option<seq<Byte>>, hex: seq<Byte> -> string)
    requires forall i :: 0 <= i < |recs| ==> KeyOf(recs[i], files, hex).Ok?
    requires KeyOf(rec, files, hex).Ok?
    ensures forall i :: 0 <= i < |recs + [rec]| ==> KeyOf((recs + [rec])[i], files, hex).Ok?
    ensures KeysOf(recs + [rec], files, hex) == KeysOf(recs, files, hex) + [KeyOf(rec, files, hex).value]
  {
    var recs' := recs + [rec];
    assert forall i :: 0 <= i < |recs| ==> recs'[i] == recs[i];
    assert recs'[|recs|] == rec;
  }

  lemma FirstSnoc<K>(keys: seq<K>, key: K)
    ensures FirstIndices(keys + [key]) == if key in keys then FirstIndices(keys) else FirstIndices(keys) + [|keys|]
  {
    assert (keys + [key])[..|keys|] == keys;
  }

  // ---------------------------------------------------------------------------
  // Sorting the kept rows

  /** `(label, phash)` tuple order. */
  predicate EntryLe(a: Entry, b: Entry) {
    || (LexLe(a.name, b.name) && a.name != b.name)
    || (a.name == b.name && LexLe(a.phash, b.phash))
  }

  lemma EntryLeOrder()
    ensures TotalPreorder(EntryLe)
  {
    forall a: Entry, b: Entry
      ensures EntryLe(a, b) || EntryLe(b, a)
    {
      LexLeTotal(a.name, b.name);
      LexLeTotal(a.phash, b.phash);
    }
    forall a: Entry, b: Entry, c: Entry | EntryLe(a, b) && EntryLe(b, c)
      ensures EntryLe(a, c)
    {
      if a.name == b.name && b.name == c.name {
        LexLeTrans(a.phash, b.phash, c.phash);
      } else if a.name != b.name && b.name != c.name {
        LexLeTrans(a.name, b.name, c.name);
        if a.name == c.name {
          LexLeAntisym(a.name, b.name);
        }
      }
    }
  }

  datatype Manifest = Manifest(rows: seq<Entry>, count: nat, dupes: nat)

  /** `build_manifest`: the sorted rows and the pair `(len(rows), dupes)`. */
  function BuildManifest(recs: seq<Json.Value>, files: string -> Option<seq<Byte>>, hex: seq<Byte> -> string): (r: Result<Manifest>)
    ensures r.Ok? ==> r.value.count == |r.value.rows|
  {
    var acc :- Scan(recs, files, hex);
    var rows := Sort(acc.rows, EntryLe);
    Ok(Manifest(rows, |rows|, acc.dupes))
  }

  /** Rows and duplicates account for every record; no pair occurs twice;
      the rows come out in `(label, phash)` order; and they are exactly the
      rows of the first record with each pair. */
  lemma BuildManifestSpec(recs: seq<Json.Value>, files: string -> Option<seq<Byte>>, hex: seq<Byte> -> string)
    requires BuildManifest(recs, files, hex).Ok?
    ensures var m := BuildManifest(recs, files, hex).value;
      && m.count + m.dupes == |recs|
      && (forall i, j :: 0 <= i < j < |m.rows| ==> Key(m.rows[i]) != Key(m.rows[j]))
      && SortedBy(m.rows, EntryLe)
      && multiset(m.rows) == multiset(Scan(recs, files, hex).value.rows)
      && Scanned(recs, files, hex, Scan(recs, files, hex).value)
  {
    var acc := Scan(recs, files, hex).value;
    ScanSpec(recs, files, hex);
    EntryLeOrder();
    SortSorted(acc.rows, EntryLe);
    var rows := Sort(acc.rows, EntryLe);
    KeptKeysDistinct(recs, files, hex, acc);
    KeysStayDistinct(rows, acc.rows);
  }

  /** The kept rows carry pairwise different pairs. */
  lemma KeptKeysDistinct(recs: seq<Json.Value>, files: string -> Option<seq<Byte>>, hex: seq<Byte> -> string, acc: Acc)
    requires Scanned(recs, files, hex, acc)
    ensures forall i, j :: 0 <= i < j < |acc.rows| ==> Key(acc.rows[i]) != Key(acc.rows[j])
  {
    var keys := KeysOf(recs, files, hex);
    var first := FirstIndices(keys);
    forall i, j | 0 <= i < j < |acc.rows|
      ensures Key(acc.rows[i]) != Key(acc.rows[j])
    {
      assert first[i] < first[j];
      assert first[j] in first;
      FirstIndicesSpec(keys, first[j]);
      assert Key(acc.rows[i]) == keys[first[i]];
      assert Key(acc.rows[j]) == keys[first[j]];
    }
  }

  /** Rearranging rows with pairwise different pairs keeps them so. */
  lemma KeysStayDistinct(a: seq<Entry>, b: seq<Entry>)
    requires multiset(a) == multiset(b)
    requires forall i, j :: 0 <= i < j < |b| ==> Key(b[i]) != Key(b[j])
    ensures forall i, j :: 0 <= i < j < |a| ==> Key(a[i]) != Key(a[j])
  {
    assert Distinct(b);
    DistinctByMultiset(a, b);
    forall i, j | 0 <= i < j < |a|
      ensures Key(a[i]) != Key(a[j])
    {
      assert a[i] in multiset(b) && a[j] in multiset(b);
      var p :| 0 <= p < |b| && b[p] == a[i];
      var q :| 0 <= q < |b| && b[q] == a[j];
      assert p != q;
    }
  }
}
