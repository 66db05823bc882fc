/** Real vectors: inner products, squared norms and L2 normalisation. The
    square root is a parameter `root` (it is a floating-point library
    routine), so normalisation is characterised by what multiplying back by
    the norm gives. */
module Vectors {

  /** `sum(a[i] * b[i] for i ...)` over the common prefix, as `zip` does. */
  function Dot(a: seq<real>, b: seq<real>): real
    decreases |a|
  {
    if |a| == 0 || |b| == 0 then 0.0 else a[0] * b[0] + Dot(a[1..], b[1..])
  }

  /** `sum(x * x for x in v)`. */
  function SumSq(v: seq<real>): (s: real)
    ensures s >= 0.0
  {
    if |v| == 0 then 0.0 else v[0] * v[0] + SumSq(v[1..])
  }

  /** `v` divided elementwise by `c`. */
  function DivideBy(v: seq<real>, c: real): (r: seq<real>)
    requires c != 0.0
    ensures |r| == |v|
    ensures forall i :: 0 <= i < |v| ==> r[i] * c == v[i]
  {
    seq(|v|, i requires 0 <= i < |v| => v[i] / c)
  }

  lemma {:induction false} SumSqDivide(v: seq<real>, c: real)
    requires c != 0.0
    ensures SumSq(DivideBy(v, c)) * (c * c) == SumSq(v)
    decreases |v|
  {
    if |v| > 0 {
      var r := DivideBy(v, c);
      assert r[1..] == DivideBy(v[1..], c);
      SumSqDivide(v[1..], c);
      calc {
        SumSq(r) * (c * c);
        (r[0] * r[0] + SumSq(r[1..])) * (c * c);
        (r[0] * c) * (r[0] * c) + SumSq(r[1..]) * (c * c);
        v[0] * v[0] + SumSq(v[1..]);
      }
    }
  }

  /** `_normalize_vec`: a zero vector stays zero, any other is divided by
      its norm. */
  function NormalizeVec(v: seq<real>, root: real -> real): (r: seq<real>)
    ensures |r| == |v|
    ensures root(SumSq(v)) == 0.0 ==> forall i :: 0 <= i < |r| ==> r[i] == 0.0
    ensures root(SumSq(v)) != 0.0 ==> forall i :: 0 <= i < |r| ==> r[i] * root(SumSq(v)) == v[i]
  {
    var norm := root(SumSq(v));
    if norm == 0.0 then seq(|v|, _ => 0.0) else DivideBy(v, norm)
  }

  /** The zero vector has squared length zero. */
  lemma {:induction false} SumSqZeros(v: seq<real>)
    requires forall i :: 0 <= i < |v| ==> v[i] == 0.0
    ensures SumSq(v) == 0.0
    decreases |v|
  {
    if |v| > 0 {
      SumSqZeros(v[1..]);
      assert v[0] * v[0] == 0.0 * 0.0;
    }
  }

  /** A zero vector normalises to itself, given a square root with
      `root(0) == 0`. */
  lemma ZeroStaysZero(v: seq<real>, root: real -> real)
    requires forall i :: 0 <= i < |v| ==> v[i] == 0.0
    requires root(0.0) == 0.0
    ensures NormalizeVec(v, root) == v
  {
    SumSqZeros(v);
  }

  /** NumPy's `arr / max(norm, 1e-12)`. */
  function NormalizeEps(v: seq<real>, root: real -> real): (r: seq<real>)
    ensures |r| == |v|
    ensures forall i :: 0 <= i < |r| ==> r[i] * NormFloor(root(SumSq(v))) == v[i]
  {
    var norm := root(SumSq(v));
    DivideBy(v, NormFloor(norm))
  }

  /** `max(norm, 1e-12)`. */
  function NormFloor(norm: real): (d: real)
    ensures d >= 1.0 / 1000000000000.0 && d >= norm
    ensures d == norm || d == 1.0 / 1000000000000.0
  {
    if norm > 1.0 / 1000000000000.0 then norm else 1.0 / 1000000000000.0
  }

  /** A vector normalised by a non-zero norm `n` has squared length
      `SumSq(v) / (n * n)`: with `n` the true square root, length one. */
  lemma NormalizeSquaredLength(v: seq<real>, root: real -> real)
    ensures root(SumSq(v)) != 0.0 ==>
      SumSq(NormalizeVec(v, root)) * (root(SumSq(v)) * root(SumSq(v))) == SumSq(v)
  {
    var n := root(SumSq(v));
    if n != 0.0 {
      SumSqDivide(v, n);
      assert NormalizeVec(v, root) == DivideBy(v, n);
    }
  }

  predicate AllOfLength(vs: seq<seq<real>>, n: int) {
    forall i :: 0 <= i < |vs| ==> |vs[i]| == n
  }
}
