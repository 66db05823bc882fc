/** Shared vocabulary: optional values, Python's exception kinds as error
    values, and bytes. */
module Base {

  datatype Option<+T> = None | Some(value: T) {
    predicate IsFailure() { None? }

    function PropagateFailure<U>(): Option<U>
      requires None?
    {
      None
    }

    function Extract(): T
      requires Some?
    {
      value
    }

    function GetOr(default: T): T {
      match this
      case Some(v) => v
      case None => default
    }
  }

  /** The Python exception classes the modelled code raises. */
  datatype ErrorKind =
    | ValueError
    | KeyError
    | TypeError
    | IndexError
    | FileNotFoundError
    | AssertionError
    | ZeroDivisionError
    | StructError
    | RoadmapError
    | OverflowError
    | AttributeError

  datatype Error = Error(kind: ErrorKind, message: string)

  /** A call either returns a value or raises. */
  datatype Result<+T> = Ok(value: T) | Err(error: Error) {
    predicate IsFailure() { Err? }

    function PropagateFailure<U>(): Result<U>
      requires Err?
    {
      Err(error)
    }

    function Extract(): T
      requires Ok?
    {
      value
    }
  }

  function Raise<T>(kind: ErrorKind, message: string): Result<T> {
    Err(Error(kind, message))
  }

  type Byte = b: int | 0 <= b < 256

  function Min(a: int, b: int): int { if a <= b then a else b }
  function Max(a: int, b: int): int { if a >= b then a else b }

  /** No element occurs twice. */
  predicate Distinct<T(==)>(s: seq<T>) {
    forall i, j :: 0 <= i < j < |s| ==> s[i] != s[j]
  }

  /** Number of elements of `s` that satisfy `p`. */
  function CountWhere<T>(s: seq<T>, p: T -> bool): (n: nat)
    ensures n <= |s|
  {
    if |s| == 0 then 0 else CountWhere(s[..|s| - 1], p) + (if p(s[|s| - 1]) then 1 else 0)
  }

  lemma CountWhereAppend<T>(a: seq<T>, b: seq<T>, p: T -> bool)
    ensures CountWhere(a + b, p) == CountWhere(a, p) + CountWhere(b, p)
    decreases |b|
  {
    if |b| == 0 {
      assert a + b == a;
    } else {
      assert (a + b)[..|a + b| - 1] == a + b[..|b| - 1];
      CountWhereAppend(a, b[..|b| - 1], p);
    }
  }

  /** Python's `s[:k]` for any integer k. */
  function PyPrefix<T>(s: seq<T>, k: int): (r: seq<T>)
    ensures k >= 0 ==> |r| == Min(k, |s|)
    ensures k < 0 ==> |r| == Max(0, |s| + k)
    ensures r == s[..|r|]
  {
    if k >= 0 then (if k <= |s| then s[..k] else s)
    else if |s| + k >= 0 then s[..|s| + k] else []
  }

  /** Python's `s[k:]` for a non-negative k. */
  function PyDrop<T>(s: seq<T>, k: nat): (r: seq<T>)
    ensures |r| == Max(0, |s| - k)
    ensures forall i :: 0 <= i < |r| ==> r[i] == s[k + i]
  {
    if k <= |s| then s[k..] else []
  }

  // Sequence identities, named so that proofs over sequences of strings can
  // call them instead of asking the solver for extensionality.

  lemma Assoc<T>(a: seq<T>, b: seq<T>, c: seq<T>)
    ensures a + (b + c) == (a + b) + c
  {
  }

  lemma HeadTail<T>(a: seq<T>)
    requires |a| > 0
    ensures a == [a[0]] + a[1..]
  {
  }

  lemma InitLast<T>(a: seq<T>)
    requires |a| > 0
    ensures a[..|a| - 1] + [a[|a| - 1]] == a
  {
  }

  lemma NoHead<T>(a: seq<T>, b: seq<T>)
    requires |a| == 0
    ensures a + b == b
  {
  }

  lemma NoTail<T>(a: seq<T>, b: seq<T>)
    requires |b| == 0
    ensures a + b == a
  {
  }

  /** `sum(xs)` in exact arithmetic, added left to right. */
  function Sum(xs: seq<real>): real
    decreases |xs|
  {
    if |xs| == 0 then 0.0 else Sum(xs[..|xs| - 1]) + xs[|xs| - 1]
  }

  /** The rows of `xss` concatenated in order. */
  function Flatten<T>(xss: seq<seq<T>>): (r: seq<T>)
  {
    if |xss| == 0 then [] else Flatten(xss[..|xss| - 1]) + xss[|xss| - 1]
  }

  lemma {:induction false} FlattenAppend<T>(a: seq<seq<T>>, b: seq<seq<T>>)
    ensures Flatten(a + b) == Flatten(a) + Flatten(b)
    decreases |b|
  {
    if |b| == 0 {
      assert a + b == a;
    } else {
      assert (a + b)[..|a + b| - 1] == a + b[..|b| - 1];
      FlattenAppend(a, b[..|b| - 1]);
    }
  }

  lemma {:induction false} FlattenLength<T>(xss: seq<seq<T>>, n: nat)
    requires forall i :: 0 <= i < |xss| ==> |xss[i]| == n
    ensures |Flatten(xss)| == n * |xss|
    decreases |xss|
  {
    if |xss| > 0 {
      FlattenLength(xss[..|xss| - 1], n);
    }
  }
}
