/** Python floats as the modelled code uses them: exact real values plus the
    three IEEE specials, comparisons that are false whenever NaN takes part,
    `round()` (half to even), `int()` and `float()` on strings, and the
    fixed-point rendering `f"{x:.9f}"`. Binary rounding to the nearest double
    is not modelled: a finite float is its exact real value. */
module PyFloat {
  import opened Base
  import opened Text

  datatype Float = Finite(r: real) | PosInf | NegInf | NaN

  /** Position on the extended real line; NaN has none. */
  function Rank(a: Float): int
    requires !a.NaN?
  {
    match a
    case NegInf => -1
    case Finite(_) => 0
    case PosInf => 1
  }

  /** `a < b` in Python: false whenever either side is NaN. */
  predicate Lt(a: Float, b: Float) {
    !a.NaN? && !b.NaN? &&
    (if a.Finite? && b.Finite? then a.r < b.r else Rank(a) < Rank(b))
  }

  /** `a <= b` in Python. */
  predicate Le(a: Float, b: Float) {
    Lt(a, b) || (!a.NaN? && a == b)
  }

  lemma NaNIncomparable(a: Float)
    ensures !Lt(a, NaN) && !Lt(NaN, a) && !Le(a, NaN) && !Le(NaN, a)
  {
  }

  lemma LeTotalOffNaN(a: Float, b: Float)
    requires !a.NaN? && !b.NaN?
    ensures Le(a, b) || Le(b, a)
    ensures Le(a, b) <==> !Lt(b, a)
  {
  }

  // ---------------------------------------------------------------------------
  // round()

  function Pow10(e: nat): (p: nat)
    ensures p >= 1
  {
    if e == 0 then 1 else 10 * Pow10(e - 1)
  }

  /** The characterisation of Python's `round(x)`: the nearest integer, and on
      an exact half the even one. */
  predicate IsRoundHalfEven(x: real, n: int) {
    && -(1.0 / 2.0) <= x - n as real <= 1.0 / 2.0
    && (x - n as real == 1.0 / 2.0 ==> n % 2 == 0)
    && (x - n as real == -(1.0 / 2.0) ==> n % 2 == 0)
  }

  /** Python's `round(x)` on a finite value. */
  function RoundHalfEven(x: real): (n: int)
    ensures IsRoundHalfEven(x, n)
  {
    var f := x.Floor;
    var d := x - f as real;
    if d < 1.0 / 2.0 then f
    else if d > 1.0 / 2.0 then f + 1
    else if f % 2 == 0 then f
    else f + 1
  }

  /** The characterisation has exactly one solution, so `RoundHalfEven` is
      Python's `round` and nothing else. */
  lemma RoundHalfEvenUnique(x: real, n: int)
    requires IsRoundHalfEven(x, n)
    ensures n == RoundHalfEven(x)
  {
  }

  /** Python's `int(x)` on a finite float: truncation toward zero. */
  function Trunc(x: real): (n: int)
    ensures x >= 0.0 ==> n as real <= x < n as real + 1.0
    ensures x < 0.0 ==> n as real - 1.0 < x <= n as real
  {
    if x >= 0.0 then x.Floor else -((-x).Floor)
  }

  /** Clamp to the int8 range, as the quantisers do after rounding. */
  function ClampInt8(n: int): (q: int)
    ensures -127 <= q <= 127
    ensures -127 <= n <= 127 ==> q == n
    ensures n > 127 ==> q == 127
    ensures n < -127 ==> q == -127
  {
    if n > 127 then 127 else if n < -127 then -127 else n
  }

  // ---------------------------------------------------------------------------
  // int(str) and float(str)

  /** Python's `int(s)` on a string: surrounding whitespace, an optional sign
      and at least one decimal digit (leading zeros allowed). */
  function ParseInt(s: string): (r: Option<int>)
    ensures r.Some? ==> |Strip(s)| > 0
  {
    var signed := SplitSign(Strip(s));
    var neg, body := signed.0, signed.1;
    if |body| == 0 || !AllDigits(body) then None
    else
      var v: int := DigitsValue(body);
      Some(if neg then -v else v)
  }

  function SplitSign(t: string): (r: (bool, string))
    ensures |r.1| <= |t|
  {
    if |t| > 0 && t[0] == '-' then (true, t[1..])
    else if |t| > 0 && t[0] == '+' then (false, t[1..])
    else (false, t)
  }

  /** Python's `str(n)`. */
  function IntToString(n: int): (s: string)
    ensures |s| >= 1
  {
    if n < 0 then "-" + NatToString(-n) else NatToString(n)
  }

  lemma {:induction false} StripDigits(s: string)
    requires |s| > 0 && !IsSpace(s[0]) && !IsSpace(s[|s| - 1])
    ensures Strip(s) == s
  {
  }

  lemma IntRoundTrip(n: int)
    ensures ParseInt(IntToString(n)) == Some(n)
  {
    var s := IntToString(n);
    var m := if n < 0 then -n else n;
    var d := NatToString(m);
    DigitsOfNat(m);
    if n < 0 {
      assert s == "-" + d;
      SignedStrip(d);
    } else {
      assert s == d;
      UnsignedStrip(d);
    }
  }

  lemma UnsignedStrip(d: string)
    requires |d| >= 1 && forall i :: 0 <= i < |d| ==> IsDigit(d[i])
    ensures SplitSign(Strip(d)) == (false, d)
  {
    assert !IsSpace(d[0]) && !IsSpace(d[|d| - 1]);
    StripDigits(d);
  }

  lemma SignedStrip(d: string)
    requires |d| >= 1 && forall i :: 0 <= i < |d| ==> IsDigit(d[i])
    ensures SplitSign(Strip("-" + d)) == (true, d)
  {
    var s := "-" + d;
    assert s[|s| - 1] == d[|d| - 1];
    assert !IsSpace(s[0]) && !IsSpace(s[|s| - 1]);
    StripDigits(s);
    assert s[1..] == d;
  }

  /** Decimal value of a mantissa `ip.fp`. */
  function MantissaValue(ip: string, fp: string): real
    requires AllDigits(ip) && AllDigits(fp)
  {
    (DigitsValue(ip) * Pow10(|fp|) + DigitsValue(fp)) as real / Pow10(|fp|) as real
  }

  function ScaleBy10(x: real, e: int): real {
    if e >= 0 then x * Pow10(e) as real else x / Pow10(-e) as real
  }

  /** Index of the first `e` or `E` in `t`, or |t|. */
  function ExponentAt(t: string): (i: nat)
    ensures i <= |t|
    ensures forall j :: 0 <= j < i ==> t[j] != 'e' && t[j] != 'E'
  {
    if |t| == 0 || t[0] == 'e' || t[0] == 'E' then 0 else 1 + ExponentAt(t[1..])
  }

  /** An unsigned decimal literal `digits[.digits][(e|E)[sign]digits]` with at
      least one mantissa digit. */
  function ParseDecimal(t: string): (r: Option<real>)
    ensures r.Some? ==> |t| > 0
  {
    var i := ExponentAt(t);
    var parts := Partition(t[..i], '.');
    var ip, fp := parts.0, parts.2;
    if !AllDigits(ip) || !AllDigits(fp) || |ip| + |fp| == 0 then None
    else
      var m := MantissaValue(ip, fp);
      if i == |t| then Some(m)
      else
        var signed := SplitSign(t[i + 1..]);
        var eneg, edigits := signed.0, signed.1;
        if |edigits| == 0 || !AllDigits(edigits) then None
        else
          var e: int := DigitsValue(edigits);
          Some(ScaleBy10(m, if eneg then -e else e))
  }

  /** Python's `float(s)` on a string: surrounding whitespace, an optional
      sign, then `inf`, `infinity` or `nan` in any case, or a decimal
      literal. */
  function ParseFloat(s: string): (r: Option<Float>)
    ensures r.Some? ==> |Strip(s)| > 0
  {
    var signed := SplitSign(Strip(s));
    var neg, body := signed.0, signed.1;
    if |body| > 0 && (IsDigit(body[0]) || body[0] == '.') then
      match ParseDecimal(body)
      case None => None
      case Some(x) => Some(Finite(if neg then -x else x))
    else
      var word := Lower(body);
      if word == "inf" || word == "infinity" then Some(if neg then NegInf else PosInf)
      else if word == "nan" then Some(NaN)
      else None
  }

  // ---------------------------------------------------------------------------
  // f"{x:.9f}"

  function Abs(n: int): nat { if n < 0 then -n else n }

  /** `s` left-padded with '0' to width `w`. */
  function ZeroPad(s: string, w: nat): (r: string)
    ensures |r| == if |s| >= w then |s| else w
    ensures r[|r| - |s|..] == s
    ensures forall i :: 0 <= i < |r| - |s| ==> r[i] == '0'
  {
    if |s| >= w then s else seq(w - |s|, _ => '0') + s
  }

  /** The number of billionths `f"{x:.9f}"` prints for a finite `x`. */
  function Billionths(x: real): int {
    RoundHalfEven(x * 1000000000.0)
  }

  /** Python's `f"{x:.9f}"`: the value rounded half to even to nine decimals,
      with the sign of `x` kept even when the rounded digits are all zero. */
  function Fixed9(x: Float): string {
    match x
    case NaN => "nan"
    case PosInf => "inf"
    case NegInf => "-inf"
    case Finite(v) => SignText(v < 0.0) + FixedDigits(Abs(Billionths(v)))
  }

  /** `m` billionths written as `whole.fffffffff`. */
  function FixedDigits(m: nat): (s: string)
    ensures |s| >= 11 && s[|s| - 10] == '.' && IsDigit(s[0])
  {
    var whole := NatToString(m / 1000000000);
    var fd := NatToString(m % 1000000000);
    assert |fd| <= 9 by { DigitsBound(m % 1000000000, 9); }
    whole + "." + ZeroPad(fd, 9)
  }

  lemma {:induction false} DigitsBound(n: nat, w: nat)
    requires n < Pow10(w)
    ensures |NatToString(n)| <= if w == 0 then 1 else w
    decreases w
  {
    if n >= 10 {
      DigitsBound(n / 10, w - 1);
    }
  }

  lemma {:induction false} DigitsValueAppend(a: string, b: string)
    requires AllDigits(a) && AllDigits(b)
    ensures AllDigits(a + b)
    ensures DigitsValue(a + b) == DigitsValue(a) * Pow10(|b|) + DigitsValue(b)
    decreases |b|
  {
    if |b| > 0 {
      var b' := b[..|b| - 1];
      var d := b[|b| - 1];
      assert (a + b)[..|a + b| - 1] == a + b';
      assert (a + b)[|a + b| - 1] == d;
      DigitsValueAppend(a, b');
      AppendStep(DigitsValue(a + b'), DigitsValue(a), DigitsValue(b'), Pow10(|b'|), DigitValue(d));
    } else {
      assert a + b == a;
    }
  }

  lemma AppendStep(vab: int, va: int, vb: int, p: int, dv: int)
    requires vab == va * p + vb
    ensures 10 * vab + dv == va * (10 * p) + (10 * vb + dv)
  {
  }

  lemma {:induction false} ZeroPadValue(s: string, w: nat)
    requires AllDigits(s)
    ensures AllDigits(ZeroPad(s, w))
    ensures DigitsValue(ZeroPad(s, w)) == DigitsValue(s)
  {
    if |s| < w {
      var z := seq(w - |s|, _ => '0');
      ZerosValue(w - |s|);
      DigitsValueAppend(z, s);
    }
  }

  lemma {:induction false} ZerosValue(k: nat)
    ensures AllDigits(seq(k, _ => '0'))
    ensures DigitsValue(seq(k, _ => '0')) == 0
    decreases k
  {
    if k > 0 {
      assert seq(k, _ => '0')[..k - 1] == seq(k - 1, _ => '0');
      ZerosValue(k - 1);
    }
  }

  /** Reading back the fixed-point rendering gives the rounded value: the
      nine-decimal rendering loses exactly the rounding and nothing else. */
  lemma Fixed9RoundTrip(x: real)
    ensures ParseFloat(Fixed9(Finite(x))) == Some(Finite(Billionths(x) as real / 1000000000.0))
  {
    var whole, frac := Fixed9Parts(x);
    SignedBillionths(x);
    ParseBillionths(x < 0.0, whole, frac, Billionths(x));
  }

  lemma ParseBillionths(neg: bool, whole: string, frac: string, n: int)
    requires AllDigits(whole) && AllDigits(frac) && |whole| >= 1 && |frac| == 9
    requires Signed(neg, DigitsValue(whole) * 1000000000 + DigitsValue(frac)) == n
    ensures ParseFloat(SignText(neg) + (whole + "." + frac)) == Some(Finite(n as real / 1000000000.0))
  {
    ParseFixedText(neg, whole, frac);
    NineDecimals(neg, whole, frac, n, ParseFloat(SignText(neg) + (whole + "." + frac)));
  }

  lemma SignedBillionths(x: real)
    ensures Signed(x < 0.0, Abs(Billionths(x))) == Billionths(x)
  {
    RoundMonotoneZero(x * 1000000000.0);
  }

  /** The finite rendering is a sign, the whole part and nine fraction digits
      that together spell the absolute number of billionths. */
  lemma Fixed9Parts(x: real) returns (whole: string, frac: string)
    ensures AllDigits(whole) && AllDigits(frac) && |whole| >= 1 && |frac| == 9
    ensures Fixed9(Finite(x)) == SignText(x < 0.0) + (whole + "." + frac)
    ensures DigitsValue(whole) * 1000000000 + DigitsValue(frac) == Abs(Billionths(x))
  {
    whole, frac := FixedDigitsParts(Abs(Billionths(x)));
  }

  lemma FixedDigitsParts(m: nat) returns (whole: string, frac: string)
    ensures AllDigits(whole) && AllDigits(frac) && |whole| >= 1 && |frac| == 9
    ensures FixedDigits(m) == whole + "." + frac
    ensures DigitsValue(whole) * 1000000000 + DigitsValue(frac) == m
  {
    whole := NatToString(m / 1000000000);
    var fd := NatToString(m % 1000000000);
    DigitsBound(m % 1000000000, 9);
    frac := ZeroPad(fd, 9);
    DigitsOfNat(m / 1000000000);
    DigitsOfNat(m % 1000000000);
    ZeroPadValue(fd, 9);
  }

  /** `float()` reads a rendered `[-]whole.frac` back as its decimal value. */
  lemma ParseFixedText(neg: bool, whole: string, frac: string)
    requires AllDigits(whole) && AllDigits(frac) && |whole| >= 1 && |frac| >= 1
    ensures ParseFloat(SignText(neg) + (whole + "." + frac))
         == Some(Finite(if neg then -MantissaValue(whole, frac) else MantissaValue(whole, frac)))
  {
    var body := whole + "." + frac;
    assert body[0] == whole[0] && body[|body| - 1] == frac[|frac| - 1];
    SignedTextShape(neg, body);
    DecimalOfFixed(whole, frac);
    ParseSignedDecimal(SignText(neg) + body, neg, body, MantissaValue(whole, frac));
  }

  /** A signed numeral has no surrounding whitespace and splits back into its
      sign and its digits. */
  lemma SignedTextShape(neg: bool, body: string)
    requires |body| > 0 && IsDigit(body[0]) && IsDigit(body[|body| - 1])
    ensures Strip(SignText(neg) + body) == SignText(neg) + body
    ensures SplitSign(SignText(neg) + body) == (neg, body)
  {
    var s := SignText(neg) + body;
    assert s[|s| - 1] == body[|body| - 1];
    StripDigits(s);
    if neg {
      assert s[1..] == body;
    } else {
      assert s == body;
    }
  }

  /** With nine fraction digits the mantissa is a count of billionths. */
  lemma NineDecimals(neg: bool, whole: string, frac: string, n: int, p: Option<Float>)
    requires AllDigits(whole) && AllDigits(frac) && |frac| == 9
    requires Signed(neg, DigitsValue(whole) * 1000000000 + DigitsValue(frac)) == n
    requires p == Some(Finite(if neg then -MantissaValue(whole, frac) else MantissaValue(whole, frac)))
    ensures p == Some(Finite(n as real / 1000000000.0))
  {
    assert Pow10(|frac|) == Pow10(9) == 1000000000;
  }

  function SignText(neg: bool): string {
    if neg then "-" else ""
  }

  function Signed(neg: bool, m: nat): int {
    var v: int := m;
    if neg then -v else v
  }

  /** `float()` of a stripped, signed decimal literal is the literal's value
      with the sign applied. */
  lemma ParseSignedDecimal(s: string, neg: bool, body: string, x: real)
    requires Strip(s) == s && SplitSign(s) == (neg, body)
    requires |body| > 0 && IsDigit(body[0]) && ParseDecimal(body) == Some(x)
    ensures ParseFloat(s) == Some(Finite(if neg then -x else x))
  {
  }

  lemma DecimalOfFixed(whole: string, frac: string)
    requires AllDigits(whole) && AllDigits(frac) && |whole| >= 1
    ensures ParseDecimal(whole + "." + frac) == Some(MantissaValue(whole, frac))
  {
    var body := whole + "." + frac;
    NoExponent(whole, frac);
    PartitionAtDot(whole, frac);
    assert body[..|body|] == body;
  }

  lemma RoundMonotoneZero(y: real)
    ensures y < 0.0 ==> RoundHalfEven(y) <= 0
    ensures y >= 0.0 ==> RoundHalfEven(y) >= 0
  {
  }

  lemma NoExponent(whole: string, frac: string)
    requires AllDigits(whole) && AllDigits(frac)
    ensures ExponentAt(whole + "." + frac) == |whole + "." + frac|
  {
    DigitsHaveNoExponent(frac);
    ExponentAtAppend(".", frac);
    ExponentAtAppend(whole, "." + frac);
    assert whole + "." + frac == whole + ("." + frac);
  }

  lemma {:induction false} DigitsHaveNoExponent(s: string)
    requires AllDigits(s)
    ensures ExponentAt(s) == |s|
    decreases |s|
  {
    if |s| > 0 {
      DigitsHaveNoExponent(s[1..]);
    }
  }

  lemma {:induction false} ExponentAtAppend(a: string, b: string)
    requires forall j :: 0 <= j < |a| ==> a[j] != 'e' && a[j] != 'E'
    ensures ExponentAt(a + b) == |a| + ExponentAt(b)
    decreases |a|
  {
    if |a| > 0 {
      assert (a + b)[1..] == a[1..] + b;
      ExponentAtAppend(a[1..], b);
    } else {
      assert a + b == b;
    }
  }

  lemma PartitionAtDot(whole: string, frac: string)
    requires AllDigits(whole) && AllDigits(frac)
    ensures Partition(whole + "." + frac, '.') == (whole, true, frac)
  {
    assert '.' !in whole;
    PartitionUnique(whole + "." + frac, '.', whole, frac);
  }
}
