/** Linear-interpolation quantiles over a sorted copy of the data: `_quantile`
    of the calibration script (fraction `q`) and `_percentile` of the
    evaluation report (percent `q`). Floats are reals here. */
module Stats {
  import opened Base
  import opened PyFloat
  import opened Sorting

  /** Python's `s[i]` on a list: negative indices count from the end and
      anything outside `-len(s) <= i < len(s)` raises IndexError. */
  function PyIndex(s: seq<real>, i: int): (r: Result<real>)
    ensures r.Ok? <==> -|s| <= i < |s|
    ensures r.Ok? && i >= 0 ==> r.value == s[i]
    ensures r.Ok? && i < 0 ==> r.value == s[|s| + i]
    ensures r.Err? ==> r.error.kind == IndexError
  {
    if 0 <= i < |s| then Ok(s[i])
    else if -|s| <= i < 0 then Ok(s[|s| + i])
    else Raise(IndexError, "list index out of range")
  }

  /** The order `sorted` uses on floats. */
  function RealLe(): (real, real) -> bool {
    (a: real, b: real) => a <= b
  }

  lemma RealLeOrders()
    ensures TotalPreorder(RealLe()) && Antisymmetric(RealLe())
  {
  }

  /** The shared tail of both routines on a sorted list of two or more
      values at fractional position `k`. */
  function Interpolate(s: seq<real>, k: real): (r: Result<real>)
    requires |s| >= 2
  {
    var f := Trunc(k);
    var c := Min(f + 1, |s| - 1);
    if f == c then PyIndex(s, f)
    else
      var lo :- PyIndex(s, f);
      var hi :- PyIndex(s, c);
      Ok(lo * (c as real - k) + hi * (k - f as real))
  }

  /** The fractional index `(len(s) - 1) * q` both routines interpolate at. */
  function Position(n: nat, q: real): real {
    (n - 1) as real * q
  }

  /** `_quantile(values, q)`. */
  function Quantile(values: seq<real>, q: real): (r: Result<real>)
    ensures |values| == 0 ==> r == Ok(0.0)
    ensures |values| == 1 ==> r == Ok(values[0])
  {
    if |values| == 0 then Ok(0.0)
    else
      var s := Sort(values, RealLe());
      if |s| == 1 then
        assert s[0] in multiset(values);
        Ok(s[0])
      else Interpolate(s, Position(|s|, q))
  }

  /** `_percentile(values, q)`: the same interpolation at `q` percent. */
  function Percentile(values: seq<real>, q: real): (r: Result<real>)
    ensures |values| == 0 ==> r == Ok(0.0)
    ensures |values| == 1 ==> r == Ok(values[0])
  {
    if |values| == 0 then Ok(0.0)
    else
      var s := Sort(values, RealLe());
      if |s| == 1 then
        assert s[0] in multiset(values);
        Ok(s[0])
      else Interpolate(s, Position(|s|, q / 100.0))
  }

  /** The percentile at `q` is the quantile at `q / 100`. */
  lemma PercentileIsQuantile(values: seq<real>, q: real)
    ensures Percentile(values, q) == Quantile(values, q / 100.0)
  {
  }

  // ---------------------------------------------------------------------------
  // Arithmetic on reals, one step at a time

  lemma MulNonneg(x: real, y: real)
    requires x >= 0.0 && y >= 0.0
    ensures x * y >= 0.0
  {
  }

  lemma MulPositive(x: real, y: real)
    requires x > 0.0 && y > 0.0
    ensures x * y > 0.0
  {
  }

  /** `count / n` for `0 <= count <= n`, `n > 0`, is a fraction. */
  lemma Fraction(count: nat, n: nat)
    requires count <= n && n > 0
    ensures 0.0 <= count as real / n as real <= 1.0
    ensures count as real / n as real * n as real == count as real
  {
    var q := count as real / n as real;
    assert q * n as real == count as real;
    assert (q - 1.0) * n as real == count as real - n as real;
    if q > 1.0 {
      MulPositive(q - 1.0, n as real);
    }
    if q < 0.0 {
      MulPositive(-q, n as real);
    }
  }

  lemma MulLe(x: real, y: real)
    requires x >= 0.0 && 0.0 <= y <= 1.0
    ensures x * y <= x
  {
  }

  /** A convex combination lies between its end points. */
  lemma Between(a: real, b: real, t: real)
    requires a <= b && 0.0 <= t <= 1.0
    ensures a <= a * (1.0 - t) + b * t <= b
  {
    var d := b - a;
    MulNonneg(d, t);
    MulLe(d, t);
    var u := a * t;
    var w := b * t;
    var e := d * t;
    assert a * (1.0 - t) == a - u;
    assert e == w - u;
    var r := a * (1.0 - t) + b * t;
    assert r == a - u + w;
    assert r == a + e;
    assert a <= r;
    assert r <= b;
  }

  // ---------------------------------------------------------------------------
  // Properties

  /** Inside the data range: for `0 <= k <= len(s) - 1` the interpolation
      succeeds and lies between the two neighbouring sorted values. */
  lemma InterpolateInRange(s: seq<real>, k: real)
    requires |s| >= 2 && SortedBy(s, RealLe())
    requires 0.0 <= k <= (|s| - 1) as real
    ensures Interpolate(s, k).Ok?
    ensures s[0] <= Interpolate(s, k).value <= s[|s| - 1]
    ensures exists i, j :: 0 <= i < |s| && 0 <= j < |s| && s[i] <= Interpolate(s, k).value <= s[j]
  {
    var f := Trunc(k);
    assert 0 <= f <= |s| - 1;
    if f + 1 <= |s| - 1 {
      SortedLe(s, f, f + 1);
      InterpolateBetween(s, k, f);
      SortedLe(s, 0, f);
      SortedLe(s, f + 1, |s| - 1);
    } else {
      assert Interpolate(s, k) == Ok(s[f]);
      SortedLe(s, 0, f);
    }
    var v := Interpolate(s, k).value;
    assert s[0] <= v <= s[|s| - 1];
  }

  /** Strictly inside the data the result mixes the two neighbours. */
  lemma InterpolateBetween(s: seq<real>, k: real, f: int)
    requires |s| >= 2 && 0.0 <= k && f == Trunc(k) && 0 <= f && f + 1 <= |s| - 1
    requires s[f] <= s[f + 1]
    ensures Interpolate(s, k).Ok?
    ensures s[f] <= Interpolate(s, k).value <= s[f + 1]
  {
    var t := k - f as real;
    assert 0.0 <= t <= 1.0;
    var c := Min(f + 1, |s| - 1);
    assert c == f + 1;
    assert PyIndex(s, f) == Ok(s[f]) && PyIndex(s, c) == Ok(s[f + 1]);
    assert c as real - k == 1.0 - t;
    var lo := PyIndex(s, f).value;
    var hi := PyIndex(s, c).value;
    assert lo == s[f] && hi == s[c];
    assert Interpolate(s, k).value == lo * (c as real - k) + hi * (k - f as real);
    Between(s[f], s[f + 1], t);
    Rebase(s[f], s[f + 1], c as real - k, t);
  }

  lemma Rebase(a: real, b: real, u: real, t: real)
    requires u == 1.0 - t
    ensures a * u + b * t == a * (1.0 - t) + b * t
  {
  }

  lemma SortedLe(s: seq<real>, i: int, j: int)
    requires SortedBy(s, RealLe()) && 0 <= i <= j < |s|
    ensures s[i] <= s[j]
  {
    if i < j {
      assert RealLe()(s[i], s[j]);
    }
  }

  /** The smallest and largest of `values` are the ends of their sorted copy. */
  lemma SortedEnds(values: seq<real>)
    requires |values| > 0
    ensures var s := Sort(values, RealLe());
      && s[0] in values && s[|s| - 1] in values
      && forall i :: 0 <= i < |values| ==> s[0] <= values[i] <= s[|s| - 1]
  {
    var s := Sort(values, RealLe());
    RealLeOrders();
    SortSorted(values, RealLe());
    assert s[0] in multiset(values) && s[|s| - 1] in multiset(values);
    forall i | 0 <= i < |values|
      ensures s[0] <= values[i] <= s[|s| - 1]
    {
      assert values[i] in multiset(s);
      InSortedBetween(s, values[i]);
    }
  }

  lemma InSortedBetween(s: seq<real>, x: real)
    requires SortedBy(s, RealLe()) && x in s
    ensures s[0] <= x <= s[|s| - 1]
  {
    var j :| 0 <= j < |s| && s[j] == x;
    SortedLe(s, 0, j);
    SortedLe(s, j, |s| - 1);
  }

  lemma PositionInRange(n: nat, q: real)
    requires n >= 1 && 0.0 <= q <= 1.0
    ensures 0.0 <= Position(n, q) <= (n - 1) as real
  {
    MulNonneg((n - 1) as real, q);
    MulLe((n - 1) as real, q);
  }

  /** For a fraction `0 <= q <= 1` of a non-empty list the quantile exists
      and lies between the smallest and the largest value. */
  lemma {:induction false} QuantileBounds(values: seq<real>, q: real)
    requires |values| > 0 && 0.0 <= q <= 1.0
    ensures Quantile(values, q).Ok?
    ensures exists i :: 0 <= i < |values| && values[i] <= Quantile(values, q).value
    ensures exists j :: 0 <= j < |values| && Quantile(values, q).value <= values[j]
  {
    var s := Sort(values, RealLe());
    SortedEnds(values);
    var i :| 0 <= i < |values| && values[i] == s[0];
    var j :| 0 <= j < |values| && values[j] == s[|s| - 1];
    if |s| >= 2 {
      PositionInRange(|s|, q);
      RealLeOrders();
      SortSorted(values, RealLe());
      InterpolateInRange(s, Position(|s|, q));
      QuantileOfSorted(values, q);
    }
    assert values[i] <= Quantile(values, q).value <= values[j];
  }

  /** The quantile at 0 is the minimum and at 1 the maximum. */
  lemma QuantileEnds(values: seq<real>)
    requires |values| > 0
    ensures Quantile(values, 0.0).Ok? && Quantile(values, 1.0).Ok?
    ensures Quantile(values, 0.0).value in values
    ensures Quantile(values, 1.0).value in values
    ensures forall i :: 0 <= i < |values| ==>
      Quantile(values, 0.0).value <= values[i] <= Quantile(values, 1.0).value
  {
    var s := Sort(values, RealLe());
    SortedEnds(values);
    if |s| >= 2 {
      assert Position(|s|, 0.0) == 0.0;
      assert Trunc(0.0) == 0;
      assert Quantile(values, 0.0) == Ok(s[0] * 1.0 + s[1] * 0.0);
      assert Position(|s|, 1.0) == (|s| - 1) as real;
      assert Trunc((|s| - 1) as real) == |s| - 1;
    }
  }

  lemma QuantileOfSorted(values: seq<real>, q: real)
    ensures |values| >= 2 ==>
      Quantile(values, q) == Interpolate(Sort(values, RealLe()), Position(|values|, q))
  {
  }

  /** The quantile depends on the values only, not on their order. */
  lemma QuantileOrderFree(a: seq<real>, b: seq<real>, q: real)
    requires multiset(a) == multiset(b)
    ensures Quantile(a, q) == Quantile(b, q)
  {
    RealLeOrders();
    SortSorted(a, RealLe());
    SortSorted(b, RealLe());
    SortedUnique(Sort(a, RealLe()), Sort(b, RealLe()), RealLe());
    assert |a| == |multiset(a)| == |b|;
    QuantileOfSorted(a, q);
    QuantileOfSorted(b, q);
  }

  /** Far outside the fraction range the index leaves the list: when
      `int((len(s) - 1) * q)` is past the end, or before the start even
      counting from the back, `_quantile` raises IndexError. */
  lemma QuantileOutOfRange(values: seq<real>, q: real)
    requires |values| >= 2
    requires Trunc(Position(|values|, q)) >= |values| || Trunc(Position(|values|, q)) < -|values|
    ensures Quantile(values, q).Err? && Quantile(values, q).error.kind == IndexError
  {
    var s := Sort(values, RealLe());
    var k := Position(|s|, q);
    var f := Trunc(k);
    QuantileOfSorted(values, q);
    assert Min(f + 1, |s| - 1) != f;
    assert PyIndex(s, f).Err?;
  }
}
