/** `_normalize` of the reproducibility helpers: the canonical form a
    metrics object takes before it is dumped and hashed. Mappings get their
    keys in sorted order, sequences other than strings are normalised
    element by element, floats become nine-decimal strings and every other
    value stays as it is. The JSON dump and the SHA-256 hash are left out. */
module Repro {
  import opened Base
  import opened Sorting
  import opened Text
  import opened PyFloat
  import Json

  type Entry = (string, Json.Value)

  /** `sorted(obj)` on a mapping's keys, carried on its entries. */
  function KeyLe(): (Entry, Entry) -> bool {
    (a: Entry, b: Entry) => LexLe(a.0, b.0)
  }

  lemma KeyLeOrders()
    ensures TotalPreorder(KeyLe())
  {
    forall a: Entry, b: Entry
      ensures KeyLe()(a, b) || KeyLe()(b, a)
    {
      LexLeTotal(a.0, b.0);
    }
    forall a: Entry, b: Entry, c: Entry | KeyLe()(a, b) && KeyLe()(b, c)
      ensures KeyLe()(a, c)
    {
      LexLeTrans(a.0, b.0, c.0);
    }
  }

  /** A Python mapping: no key twice. */
  predicate DistinctKeys(entries: seq<Entry>) {
    Distinct(Json.Keys(entries))
  }

  /** `_normalize(obj)`. Python normalises each value in sorted key order;
      here the entries are sorted and then their values normalised, which
      gives the same mapping. */
  function Normalize(v: Json.Value): (r: Json.Value)
    ensures v.Dict? <==> r.Dict?
    ensures v.List? <==> r.List?
    ensures v.Float? ==> r.Str?
    ensures v.Dict? ==> |r.entries| == |v.entries|
    ensures v.Dict? ==> forall key :: Json.HasKey(r.entries, key) <==> Json.HasKey(v.entries, key)
    ensures v.List? ==> |r.items| == |v.items|
    decreases v
  {
    match v
    case Dict(entries) =>
      var sorted := Sort(entries, KeyLe());
      var out := seq(|sorted|, i requires 0 <= i < |sorted| =>
        assert sorted[i] in multiset(entries);
        (sorted[i].0, Normalize(sorted[i].1)));
      PermutedKeys(entries, sorted, out);
      Json.Dict(out)
    case List(items) =>
      Json.List(seq(|items|, i requires 0 <= i < |items| => Normalize(items[i])))
    case Float(f) => Json.Str(Fixed9(f))
    case _ => v
  }

  /** Entries that are a permutation of `entries`, with each value replaced,
      have the same keys. */
  lemma PermutedKeys(entries: seq<Entry>, sorted: seq<Entry>, out: seq<Entry>)
    requires multiset(sorted) == multiset(entries)
    requires |out| == |sorted| && forall i :: 0 <= i < |out| ==> out[i].0 == sorted[i].0
    ensures forall key :: Json.HasKey(out, key) <==> Json.HasKey(entries, key)
  {
    forall key
      ensures Json.HasKey(out, key) <==> Json.HasKey(entries, key)
    {
      if Json.HasKey(out, key) {
        var i :| 0 <= i < |out| && out[i].0 == key;
        assert sorted[i] in multiset(entries);
        var j :| 0 <= j < |entries| && entries[j] == sorted[i];
      }
      if Json.HasKey(entries, key) {
        var j :| 0 <= j < |entries| && entries[j].0 == key;
        assert entries[j] in multiset(sorted);
        var i :| 0 <= i < |sorted| && sorted[i] == entries[j];
        assert out[i].0 == key;
      }
    }
  }

  /** No float left anywhere inside. */
  predicate NoFloats(v: Json.Value)
    decreases v
  {
    match v
    case Float(_) => false
    case List(items) => forall i :: 0 <= i < |items| ==> NoFloats(items[i])
    case Dict(entries) => forall i :: 0 <= i < |entries| ==> NoFloats(entries[i].1)
    case _ => true
  }

  /** The shape of one normalisation step: floats turn into their
      nine-decimal text, lists keep their length and are normalised element
      by element, mappings keep their entries, with values normalised, now in
      key order, and nothing else changes. */
  lemma NormalizeShape(v: Json.Value)
    ensures v.Float? ==> Normalize(v) == Json.Str(Fixed9(v.f))
    ensures v.List? ==> (Normalize(v).List? && |Normalize(v).items| == |v.items|
      && forall i :: 0 <= i < |v.items| ==> Normalize(v).items[i] == Normalize(v.items[i]))
    ensures v.Dict? ==> (Normalize(v).Dict? && SortedBy(Json.Keys(Normalize(v).entries), LexLe)
      && exists s: seq<Entry> :: multiset(s) == multiset(v.entries) && |s| == |Normalize(v).entries|
           && forall i :: 0 <= i < |s| ==> Normalize(v).entries[i] == (s[i].0, Normalize(s[i].1)))
    ensures !v.Float? && !v.List? && !v.Dict? ==> Normalize(v) == v
  {
    if v.Dict? {
      var sorted := Sort(v.entries, KeyLe());
      KeyLeOrders();
      SortSorted(v.entries, KeyLe());
      KeysOfSorted(v.entries, sorted);
      NormalizedEntries(v.entries);
    }
  }

  lemma NormalizedEntries(entries: seq<Entry>)
    ensures var out := Normalize(Json.Dict(entries)).entries;
      var sorted := Sort(entries, KeyLe());
      && |out| == |sorted|
      && forall i :: 0 <= i < |out| ==> out[i] == (sorted[i].0, Normalize(sorted[i].1))
  {
  }

  lemma KeysOfSorted(entries: seq<Entry>, sorted: seq<Entry>)
    requires sorted == Sort(entries, KeyLe()) && SortedBy(sorted, KeyLe())
    ensures var out := Normalize(Json.Dict(entries)).entries;
      SortedBy(Json.Keys(out), LexLe)
  {
    var out := Normalize(Json.Dict(entries)).entries;
    NormalizedEntries(entries);
    assert Json.Keys(out) == Json.Keys(sorted);
    SortedKeys(sorted);
  }

  lemma SortedKeys(sorted: seq<Entry>)
    requires SortedBy(sorted, KeyLe())
    ensures SortedBy(Json.Keys(sorted), LexLe)
  {
    var ks := Json.Keys(sorted);
    forall i, j | 0 <= i < j < |ks|
      ensures LexLe(ks[i], ks[j])
    {
      assert KeyLe()(sorted[i], sorted[j]);
    }
  }

  /** Normalised values hold no floats. */
  lemma {:induction false} NormalizeNoFloats(v: Json.Value)
    ensures NoFloats(Normalize(v))
    decreases v
  {
    match v
    case Dict(entries) =>
      var sorted := Sort(entries, KeyLe());
      forall i | 0 <= i < |sorted|
        ensures NoFloats(Normalize(sorted[i].1))
      {
        assert sorted[i] in multiset(entries);
        NormalizeNoFloats(sorted[i].1);
      }
    case List(items) =>
      forall i | 0 <= i < |items|
        ensures NoFloats(Normalize(items[i]))
      {
        NormalizeNoFloats(items[i]);
      }
    case _ =>
  }

  /** A value without floats whose mappings are already in key order is its
      own normal form. */
  predicate Canonical(v: Json.Value)
    decreases v
  {
    match v
    case Float(_) => false
    case List(items) => forall i :: 0 <= i < |items| ==> Canonical(items[i])
    case Dict(entries) => SortedBy(entries, KeyLe()) && forall i :: 0 <= i < |entries| ==> Canonical(entries[i].1)
    case _ => true
  }

  lemma {:induction false} CanonicalFixed(v: Json.Value)
    requires Canonical(v)
    ensures Normalize(v) == v
    decreases v
  {
    match v
    case Dict(entries) =>
      SortedFixed(entries, KeyLe());
      var out := Normalize(v).entries;
      forall i | 0 <= i < |entries|
        ensures out[i] == entries[i]
      {
        CanonicalFixed(entries[i].1);
      }
    case List(items) =>
      var out := Normalize(v).items;
      forall i | 0 <= i < |items|
        ensures out[i] == items[i]
      {
        CanonicalFixed(items[i]);
      }
    case _ =>
  }

  /** Normal forms are canonical. */
  lemma {:induction false} NormalizeCanonical(v: Json.Value)
    ensures Canonical(Normalize(v))
    decreases v
  {
    match v
    case Dict(entries) =>
      var sorted := Sort(entries, KeyLe());
      var out := Normalize(v).entries;
      KeyLeOrders();
      SortSorted(entries, KeyLe());
      assert SortedBy(out, KeyLe()) by {
        forall i, j | 0 <= i < j < |out|
          ensures KeyLe()(out[i], out[j])
        {
          assert out[i].0 == sorted[i].0 && out[j].0 == sorted[j].0;
          assert KeyLe()(sorted[i], sorted[j]);
        }
      }
      forall i | 0 <= i < |out|
        ensures Canonical(out[i].1)
      {
        assert sorted[i] in multiset(entries);
        NormalizeCanonical(sorted[i].1);
      }
    case List(items) =>
      forall i | 0 <= i < |items|
        ensures Canonical(Normalize(items[i]))
      {
        NormalizeCanonical(items[i]);
      }
    case Float(f) =>
    case _ =>
  }

  /** Normalising twice is normalising once. */
  lemma NormalizeIdempotent(v: Json.Value)
    ensures Normalize(Normalize(v)) == Normalize(v)
  {
    NormalizeCanonical(v);
    CanonicalFixed(Normalize(v));
  }

  lemma DistinctKeysAntisymmetric(entries: seq<Entry>)
    requires DistinctKeys(entries)
    ensures AntisymmetricOn(entries, KeyLe())
  {
    forall a, b | a in entries && b in entries && KeyLe()(a, b) && KeyLe()(b, a)
      ensures a == b
    {
      LexLeAntisym(a.0, b.0);
      var i :| 0 <= i < |entries| && entries[i] == a;
      var j :| 0 <= j < |entries| && entries[j] == b;
      assert Json.Keys(entries)[i] == Json.Keys(entries)[j];
    }
  }

  /** Two mappings with the same entries in a different order normalise to
      the same value. */
  lemma KeyOrderIrrelevant(a: seq<Entry>, b: seq<Entry>)
    requires DistinctKeys(a) && multiset(a) == multiset(b)
    ensures Normalize(Json.Dict(a)) == Normalize(Json.Dict(b))
  {
    var sa := Sort(a, KeyLe());
    var sb := Sort(b, KeyLe());
    KeyLeOrders();
    SortSorted(a, KeyLe());
    SortSorted(b, KeyLe());
    DistinctKeysAntisymmetric(a);
    assert AntisymmetricOn(sa, KeyLe()) by {
      forall x | x in sa
        ensures x in a
      {
        assert x in multiset(sa);
      }
    }
    SortedUniqueOn(sa, sb, KeyLe());
  }
}
