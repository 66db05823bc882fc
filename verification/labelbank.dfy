/** The label bank of `HNSWInt8LabelBank` on its pure-Python path: an
    append-only list of L2-normalised vectors with their labels, a brute-force
    inner-product index, and an int8 shadow vocabulary of the vectors scaled
    by 127. The square root is the parameter `root`. */
module LabelBank {
  import opened Base
  import opened Text
  import opened PyFloat
  import opened Sorting
  import opened Vectors
  import opened Ranking

  datatype Bank = Bank(
    dim: int,
    vecs: seq<seq<real>>,
    labels: seq<string>,
    /** `None` until the first `add`, then the vocabulary bytes as signed
        values. */
    vocab: Option<seq<int>>)

  function Empty(dim: int): (b: Bank)
    ensures Valid(b) && |b.labels| == 0
  {
    Bank(dim, [], [], None)
  }

  /** What every `add` keeps: one label per stored vector, every vector of
      the bank's dimension, and one vocabulary entry per stored coordinate,
      each in the int8 range. */
  ghost predicate Valid(b: Bank) {
    && |b.vecs| == |b.labels|
    && (forall i :: 0 <= i < |b.vecs| ==> |b.vecs[i]| == b.dim)
    && (b.vocab.None? ==> |b.vecs| == 0)
    && (b.vocab.Some? ==> |b.vocab.value| == b.dim * |b.vecs| && InInt8(b.vocab.value))
  }

  predicate InInt8(q: seq<int>) {
    forall i :: 0 <= i < |q| ==> -127 <= q[i] <= 127
  }

  /** `max(-127, min(127, int(round(x * 127))))`. */
  function Quantize(x: real): (q: int)
    ensures -127 <= q <= 127
  {
    ClampInt8(RoundHalfEven(x * 127.0))
  }

  function QuantizeRow(v: seq<real>): (q: seq<int>)
    ensures |q| == |v| && InInt8(q)
    ensures forall i :: 0 <= i < |v| ==> q[i] == Quantize(v[i])
  {
    seq(|v|, i requires 0 <= i < |v| => Quantize(v[i]))
  }

  /** The vocabulary bytes appended for `rows`: each row quantised, rows
      concatenated in order. */
  function QuantizeRows(rows: seq<seq<real>>): (q: seq<int>)
    ensures InInt8(q)
  {
    var each := seq(|rows|, i requires 0 <= i < |rows| => QuantizeRow(rows[i]));
    AllInInt8(each);
    Flatten(each)
  }

  lemma {:induction false} AllInInt8(qs: seq<seq<int>>)
    requires forall i :: 0 <= i < |qs| ==> InInt8(qs[i])
    ensures InInt8(Flatten(qs))
    decreases |qs|
  {
    if |qs| > 0 {
      AllInInt8(qs[..|qs| - 1]);
    }
  }

  lemma QuantizeRowsLength(rows: seq<seq<real>>, n: nat)
    requires forall i :: 0 <= i < |rows| ==> |rows[i]| == n
    ensures |QuantizeRows(rows)| == n * |rows|
  {
    var each := seq(|rows|, i requires 0 <= i < |rows| => QuantizeRow(rows[i]));
    FlattenLength(each, n);
  }

  /** `n * a + n * b == n * (a + b)`. */
  lemma Distribute(n: int, a: int, b: int)
    ensures n * a + n * b == n * (a + b)
  {
  }

  function NormalizeAll(vectors: seq<seq<real>>, root: real -> real): (r: seq<seq<real>>)
    ensures |r| == |vectors|
    ensures forall i :: 0 <= i < |r| ==> r[i] == NormalizeVec(vectors[i], root)
  {
    seq(|vectors|, i requires 0 <= i < |vectors| => NormalizeVec(vectors[i], root))
  }

  /** Some vector is not of length `dim`. */
  predicate AnyOtherLength(vs: seq<seq<real>>, dim: int) {
    exists i :: 0 <= i < |vs| && |vs[i]| != dim
  }

  /** `add(labels, vectors)`: both checks run before anything is stored. */
  function Add(b: Bank, labels: seq<string>, vectors: seq<seq<real>>, root: real -> real): (r: Result<Bank>)
    ensures r.Err? <==> AnyOtherLength(vectors, b.dim) || |labels| != |vectors|
    ensures AnyOtherLength(vectors, b.dim) ==> r == Raise(ValueError, "dimension mismatch")
    ensures r.Ok? ==>
      && r.value.dim == b.dim
      && r.value.vecs == b.vecs + NormalizeAll(vectors, root)
      && r.value.labels == b.labels + labels
      && r.value.vocab == Some(b.vocab.GetOr([]) + QuantizeRows(NormalizeAll(vectors, root)))
  {
    var normed := NormalizeAll(vectors, root);
    if AnyOtherLength(normed, b.dim) then Raise(ValueError, "dimension mismatch")
    else if |labels| != |normed| then Raise(ValueError, "labels and vectors must align")
    else Ok(Bank(b.dim, b.vecs + normed, b.labels + labels, Some(b.vocab.GetOr([]) + QuantizeRows(normed))))
  }

  /** A successful `add` keeps the bank consistent: labels match rows and the
      vocabulary holds `dim` bytes per row. */
  lemma AddValid(b: Bank, labels: seq<string>, vectors: seq<seq<real>>, root: real -> real)
    requires Valid(b)
    ensures Add(b, labels, vectors, root).Ok? ==> Valid(Add(b, labels, vectors, root).value)
  {
    var r := Add(b, labels, vectors, root);
    if r.Ok? {
      var normed := NormalizeAll(vectors, root);
      assert !AnyOtherLength(normed, b.dim);
      AppendValid(b, labels, normed);
    }
  }

  /** Appending aligned rows of the bank's width keeps it consistent. */
  lemma AppendValid(b: Bank, labels: seq<string>, normed: seq<seq<real>>)
    requires Valid(b) && |labels| == |normed|
    requires forall i :: 0 <= i < |normed| ==> |normed[i]| == b.dim
    ensures Valid(Bank(b.dim, b.vecs + normed, b.labels + labels, Some(b.vocab.GetOr([]) + QuantizeRows(normed))))
  {
    var nb := Bank(b.dim, b.vecs + normed, b.labels + labels, Some(b.vocab.GetOr([]) + QuantizeRows(normed)));
    assert b.dim >= 0 || |normed| == 0 by {
      if |normed| > 0 {
        assert |normed[0]| == b.dim;
      }
    }
    if |normed| > 0 {
      QuantizeRowsLength(normed, b.dim);
    }
    forall i | 0 <= i < |nb.vecs|
      ensures |nb.vecs[i]| == b.dim
    {
      if i >= |b.vecs| {
        assert nb.vecs[i] == normed[i - |b.vecs|];
      }
    }
    Distribute(b.dim, |b.vecs|, |normed|);
  }

  // ---------------------------------------------------------------------------
  // Lookup

  /** `sum(q[i] * v[i] for i in range(dim))` against every stored vector. */
  function ScoresAgainst(vecs: seq<seq<real>>, q: seq<real>): (s: seq<real>)
    ensures |s| == |vecs|
    ensures forall i :: 0 <= i < |vecs| ==> s[i] == Dot(q, vecs[i])
  {
    seq(|vecs|, i requires 0 <= i < |vecs| => Dot(q, vecs[i]))
  }

  /** `_PyIndex.search` for one query: a correct top-k answer over the inner
      products, each hit carrying its own vector's score. */
  function Search(vecs: seq<seq<real>>, q: seq<real>, k: int): (r: seq<Hit>)
    ensures IsTopK(ScoresAgainst(vecs, q), k, r)
    ensures forall i :: 0 <= i < |r| ==> r[i].idx < |vecs| && r[i].score == Dot(q, vecs[r[i].idx])
  {
    RankHitsSpec(ScoresAgainst(vecs, q), k);
    RankHits(ScoresAgainst(vecs, q), k)
  }

  datatype TopK = TopK(scores: seq<real>, labels: seq<string>)

  /** The order of the key `(-score, label)`. */
  predicate PairLe(a: (real, string), b: (real, string)) {
    a.0 > b.0 || (a.0 == b.0 && LexLe(a.1, b.1))
  }

  lemma PairLeOrder()
    ensures TotalPreorder(PairLe) && Antisymmetric(PairLe)
  {
    forall a: (real, string), b: (real, string)
      ensures PairLe(a, b) || PairLe(b, a)
    {
      LexLeTotal(a.1, b.1);
    }
    forall a: (real, string), b: (real, string), c: (real, string) | PairLe(a, b) && PairLe(b, c)
      ensures PairLe(a, c)
    {
      if a.0 == b.0 && b.0 == c.0 {
        LexLeTrans(a.1, b.1, c.1);
      }
    }
    forall a: (real, string), b: (real, string) | PairLe(a, b) && PairLe(b, a)
      ensures a == b
    {
      LexLeAntisym(a.1, b.1);
    }
  }

  /** `zip(scores, [labels[i] for i in ids])`. */
  function Labelled(labels: seq<string>, hits: seq<Hit>): (ps: seq<(real, string)>)
    requires forall i :: 0 <= i < |hits| ==> hits[i].idx < |labels|
    ensures |ps| == |hits|
    ensures forall i :: 0 <= i < |hits| ==> ps[i] == (hits[i].score, labels[hits[i].idx])
  {
    seq(|hits|, i requires 0 <= i < |hits| => (hits[i].score, labels[hits[i].idx]))
  }

  function Unzip(ps: seq<(real, string)>): (t: TopK)
    ensures |t.scores| == |ps| && |t.labels| == |ps|
    ensures forall i :: 0 <= i < |ps| ==> ps[i] == (t.scores[i], t.labels[i])
  {
    TopK(seq(|ps|, i requires 0 <= i < |ps| => ps[i].0), seq(|ps|, i requires 0 <= i < |ps| => ps[i].1))
  }

  /** The top-k hits of the first query, as labelled pairs. */
  function FirstQueryPairs(b: Bank, q: seq<real>, k: int): (ps: seq<(real, string)>)
    requires Valid(b)
  {
    var hits := Search(b.vecs, q, k);
    RankHitsSpec(ScoresAgainst(b.vecs, q), k);
    Labelled(b.labels, hits)
  }

  /** `_lookup_vecs(vectors, k)`: every query is normalised and checked, but
      only the first one is answered; an empty query list fails on
      `scores_list[0]`. */
  function Lookup(b: Bank, queries: seq<seq<real>>, k: int, root: real -> real): (r: Result<TopK>)
    requires Valid(b)
    ensures AnyOtherLength(queries, b.dim) ==> r == Raise(ValueError, "dimension mismatch")
    ensures !AnyOtherLength(queries, b.dim) && |queries| == 0 ==> r.Err? && r.error.kind == IndexError
    ensures r.Ok? ==> |queries| > 0 && !AnyOtherLength(queries, b.dim)
    ensures r.Ok? ==> |r.value.scores| == |r.value.labels| == SliceCount(|b.vecs|, k)
  {
    var normed := NormalizeAll(queries, root);
    if AnyOtherLength(normed, b.dim) then Raise(ValueError, "dimension mismatch")
    else if |normed| == 0 then Raise(IndexError, "list index out of range")
    else
      RankHitsSpec(ScoresAgainst(b.vecs, normed[0]), k);
      Ok(Unzip(Sort(FirstQueryPairs(b, normed[0], k), PairLe)))
  }

  /** The answer lists the labelled top-k hits of the first normalised query
      (as a multiset), ordered by descending score and then ascending label. */
  lemma LookupSpec(b: Bank, queries: seq<seq<real>>, k: int, root: real -> real)
    requires Valid(b)
    ensures var r := Lookup(b, queries, k, root);
      r.Ok? ==>
        var ps := Sort(FirstQueryPairs(b, NormalizeVec(queries[0], root), k), PairLe);
        && r.value == Unzip(ps)
        && SortedBy(ps, PairLe)
        && multiset(ps) == multiset(FirstQueryPairs(b, NormalizeVec(queries[0], root), k))
        && IsTopK(ScoresAgainst(b.vecs, NormalizeVec(queries[0], root)), k,
                  Search(b.vecs, NormalizeVec(queries[0], root), k))
  {
    if Lookup(b, queries, k, root).Ok? {
      var q := NormalizeVec(queries[0], root);
      PairLeOrder();
      SortSorted(FirstQueryPairs(b, q, k), PairLe);
      RankHitsSpec(ScoresAgainst(b.vecs, q), k);
    }
  }

  // ---------------------------------------------------------------------------
  // stats()

  datatype Stats = Stats(nItems: nat, bytesIndex: nat, bytesVocab: nat)

  /** `stats()` before the bank is saved: eight bytes per stored coordinate. */
  function GetStats(b: Bank): Stats {
    Stats(|b.labels|, |Flatten(b.vecs)| * 8, if b.vocab.Some? then |b.vocab.value| else 0)
  }

  /** `n_items` counts the labels added; the index and vocabulary sizes
      follow from it and the dimension. */
  lemma StatsSpec(b: Bank)
    requires Valid(b) && b.dim >= 0
    ensures GetStats(b).nItems == |b.vecs|
    ensures GetStats(b).bytesIndex == 8 * b.dim * |b.vecs|
    ensures GetStats(b).bytesVocab == b.dim * |b.vecs|
  {
    FlattenLength(b.vecs, b.dim);
  }

  /** Each successful `add` grows `n_items` by the number of labels given. */
  lemma AddCounts(b: Bank, labels: seq<string>, vectors: seq<seq<real>>, root: real -> real)
    ensures Add(b, labels, vectors, root).Ok? ==>
      GetStats(Add(b, labels, vectors, root).value).nItems == GetStats(b).nItems + |labels|
  {
  }
}
