/** `NumpyMatcher`: rows are L2-normalised with the norm floored at 1e-12,
    the first insertion fixes the dimension, and `topk` ranks by inner
    product with ties in insertion order. The square root is the parameter
    `root`. */
module NumpyMatcher {
  import opened Base
  import opened Vectors
  import opened Ranking
  import opened LabelBank

  datatype Matcher = Matcher(dim: Option<int>, embs: seq<seq<real>>, labels: seq<string>)

  const Fresh := Matcher(None, [], [])

  /** The dimension is unset exactly while nothing is stored, and every
      stored row has it. */
  ghost predicate Valid(m: Matcher) {
    && |m.embs| == |m.labels|
    && (m.dim.None? <==> |m.embs| == 0)
    && (m.dim.Some? ==> forall i :: 0 <= i < |m.embs| ==> |m.embs[i]| == m.dim.value)
  }

  lemma FreshValid()
    ensures Valid(Fresh)
  {
  }

  /** What `np.asarray` is given: a flat vector of floats or a list of rows.
      Python's `[]` is both, and both readings give the same rows. */
  datatype ArrayLike = Flat(vec: seq<real>) | Nested(rows: seq<seq<real>>)

  /** `np.asarray(x, dtype=float32)`, then `arr[None, :]` when it is
      one-dimensional: a flat vector becomes a single row, an empty list is
      one row of length zero, a list of equal-length rows stays as it is and
      rows of unequal length are rejected. */
  function AsRows(x: ArrayLike): (r: Result<seq<seq<real>>>)
    ensures r.Ok? ==> |r.value| >= 1 && AllOfLength(r.value, |r.value[0]|)
    ensures x.Flat? ==> r == Ok([x.vec])
    ensures x.Nested? && |x.rows| > 0 ==> (r.Ok? <==> AllOfLength(x.rows, |x.rows[0]|))
    ensures x.Nested? && |x.rows| > 0 && r.Ok? ==> r.value == x.rows
    ensures r.Err? ==> x.Nested? && r.error.kind == ValueError
  {
    match x
    case Flat(v) => Ok([v])
    case Nested(vecs) =>
      if |vecs| == 0 then Ok([[]])
      else if !AllOfLength(vecs, |vecs[0]|) then Raise(ValueError, "inhomogeneous shape")
      else Ok(vecs)
  }

  /** The two readings of `[]` agree: one row of width zero. */
  lemma EmptyListOneRow()
    ensures AsRows(Nested([])) == AsRows(Flat([])) == Ok([[]])
  {
  }

  function NormalizeRows(rows: seq<seq<real>>, root: real -> real): (r: seq<seq<real>>)
    ensures |r| == |rows|
    ensures forall i :: 0 <= i < |rows| ==> r[i] == NormalizeEps(rows[i], root)
  {
    seq(|rows|, i requires 0 <= i < |rows| => NormalizeEps(rows[i], root))
  }

  /** `_add_many(arr, labels)` on a non-empty matrix of equal-length rows. */
  function AddRows(m: Matcher, arr: seq<seq<real>>, labels: seq<string>): (r: Result<Matcher>)
    requires |arr| >= 1 && AllOfLength(arr, |arr[0]|)
    ensures r.Err? <==> m.dim.Some? && m.dim.value != |arr[0]|
    ensures r.Ok? ==> r.value == Matcher(Some(|arr[0]|), m.embs + arr, m.labels + labels)
  {
    var width := |arr[0]|;
    if m.dim.Some? && m.dim.value != width then Raise(ValueError, "dim mismatch")
    else Ok(Matcher(Some(width), m.embs + arr, m.labels + labels))
  }

  /** `add(vec, label)`. */
  function Add(m: Matcher, vec: seq<real>, name: string, root: real -> real): (r: Result<Matcher>) {
    AddRows(m, [NormalizeEps(vec, root)], [name])
  }

  /** `add_many(vecs, labels)`: the row count must equal the label count.
      A flat vector and an empty list are each a single row, so they pair
      with exactly one label. */
  function AddMany(m: Matcher, vecs: ArrayLike, labels: seq<string>, root: real -> real): (r: Result<Matcher>)
    ensures AsRows(vecs).Err? ==> r.Err? && r.error.kind == ValueError
    ensures (vecs.Flat? || |vecs.rows| == 0) && |labels| != 1 ==>
      r == Raise(ValueError, "vecs and labels length mismatch")
    ensures vecs.Nested? && |vecs.rows| > 0 && AllOfLength(vecs.rows, |vecs.rows[0]|) && |vecs.rows| != |labels| ==>
      r == Raise(ValueError, "vecs and labels length mismatch")
    ensures AsRows(vecs).Ok? && |AsRows(vecs).value| == |labels| ==>
      (r.Err? <==> m.dim.Some? && m.dim.value != |AsRows(vecs).value[0]|)
    ensures r.Ok? ==>
      && AsRows(vecs).Ok? && |AsRows(vecs).value| == |labels|
      && r.value.dim == Some(|AsRows(vecs).value[0]|)
      && r.value.embs == m.embs + NormalizeRows(AsRows(vecs).value, root)
      && r.value.labels == m.labels + labels
  {
    var rows :- AsRows(vecs);
    var arr := NormalizeRows(rows, root);
    if |arr| != |labels| then Raise(ValueError, "vecs and labels length mismatch")
    else AddRows(m, arr, labels)
  }

  /** `add(vec, label)` is `add_many` of the one-row array with one label:
      the count check it skips cannot fail. */
  lemma AddIsAddManyOfOne(m: Matcher, vec: seq<real>, name: string, root: real -> real)
    ensures Add(m, vec, name, root) == AddMany(m, Flat(vec), [name], root)
  {
    assert NormalizeRows([vec], root) == [NormalizeEps(vec, root)];
  }

  /** The first insertion fixes the dimension; a later one of another width
      fails, and a successful one keeps the matcher consistent. */
  lemma AddSpec(m: Matcher, vec: seq<real>, name: string, root: real -> real)
    requires Valid(m)
    ensures var r := Add(m, vec, name, root);
      && (m.dim.None? ==> r == Ok(Matcher(Some(|vec|), [NormalizeEps(vec, root)], [name])))
      && (m.dim.Some? ==> (r.Err? <==> m.dim.value != |vec|))
      && (r.Ok? ==> Valid(r.value) && |r.value.labels| == |m.labels| + 1)
  {
    var arr := [NormalizeEps(vec, root)];
    assert |arr[0]| == |vec|;
    assert Add(m, vec, name, root) == AddRows(m, arr, [name]);
    if m.dim.None? {
      assert m.embs == [] && m.labels == [];
      assert m.embs + arr == arr;
      var r := Add(m, vec, name, root);
      assert r.Ok?;
      assert r.value.dim == Some(|vec|);
      assert r.value.embs == arr;
      assert r.value.labels == [name];
    }
  }

  lemma AddManyValid(m: Matcher, vecs: ArrayLike, labels: seq<string>, root: real -> real)
    requires Valid(m)
    ensures var r := AddMany(m, vecs, labels, root);
      r.Ok? ==> Valid(r.value) && r.value.labels == m.labels + labels
  {
    var r := AddMany(m, vecs, labels, root);
    if r.Ok? {
      var arr := NormalizeRows(AsRows(vecs).value, root);
      forall i | 0 <= i < |r.value.embs|
        ensures |r.value.embs[i]| == r.value.dim.value
      {
        if i >= |m.embs| {
          assert r.value.embs[i] == arr[i - |m.embs|];
        }
      }
    }
  }

  datatype Neighbor = Neighbor(name: string, score: real)

  function Neighbors(labels: seq<string>, hits: seq<Hit>): (ns: seq<Neighbor>)
    requires forall i :: 0 <= i < |hits| ==> hits[i].idx < |labels|
    ensures |ns| == |hits|
    ensures forall i :: 0 <= i < |hits| ==> ns[i] == Neighbor(labels[hits[i].idx], hits[i].score)
  {
    seq(|hits|, i requires 0 <= i < |hits| => Neighbor(labels[hits[i].idx], hits[i].score))
  }

  /** `topk(query, k)`. */
  function TopK(m: Matcher, query: seq<real>, k: int, root: real -> real): (r: Result<seq<Neighbor>>)
    requires Valid(m)
    ensures |m.embs| == 0 || k <= 0 ==> r == Ok([])
    ensures |m.embs| > 0 && k > 0 && |query| != m.dim.value ==> r.Err? && r.error.kind == ValueError
    ensures r.Ok? ==> |r.value| == Min(Max(k, 0), |m.embs|)
  {
    if |m.embs| == 0 || k <= 0 then Ok([])
    else
      var q := NormalizeEps(query, root);
      if |q| != m.dim.value then Raise(ValueError, "dim mismatch")
      else
        var scores := ScoresAgainst(m.embs, q);
        var hits := RankHits(scores, Min(k, |m.labels|));
        RankHitsSpec(scores, Min(k, |m.labels|));
        Ok(Neighbors(m.labels, hits))
  }

  /** A non-empty answer lists the labels of the top `min(k, n)` rows by inner
      product with the normalised query, highest first and ties in insertion
      order. */
  lemma TopKSpec(m: Matcher, query: seq<real>, k: int, root: real -> real)
    requires Valid(m)
    ensures var r := TopK(m, query, k, root);
      r.Ok? && |m.embs| > 0 && k > 0 ==>
        var scores := ScoresAgainst(m.embs, NormalizeEps(query, root));
        var hits := RankHits(scores, Min(k, |m.embs|));
        && IsTopK(scores, Min(k, |m.embs|), hits)
        && r.value == Neighbors(m.labels, hits)
  {
    if |m.embs| > 0 && k > 0 {
      RankHitsSpec(ScoresAgainst(m.embs, NormalizeEps(query, root)), Min(k, |m.embs|));
    }
  }
}
