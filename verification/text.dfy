/** The parts of Python's `str` behaviour the modelled code relies on:
    `isspace`, `strip`, `startswith`, `partition`, `split`, ASCII case,
    decimal rendering of integers and code-point ordering of strings. */
module Text {
  import opened Base

  /** Python's `str.isspace` for a single character (the Unicode White_Space
      characters plus the ASCII separators 0x1C-0x1F). */
  predicate IsSpace(c: char) {
    var n := c as int;
    if n <= 0x20 then 0x09 <= n <= 0x0d || 0x1c <= n
    else if n < 0x1680 then n == 0x85 || n == 0xa0
    else
      || n == 0x1680 || (0x2000 <= n <= 0x200a) || n == 0x2028 || n == 0x2029
      || n == 0x202f || n == 0x205f || n == 0x3000
  }

  predicate IsDigit(c: char) { '0' <= c <= '9' }

  predicate IsAsciiAlnum(c: char) {
    IsDigit(c) || ('a' <= c <= 'z') || ('A' <= c <= 'Z')
  }

  function LowerChar(c: char): char {
    if 'A' <= c <= 'Z' then (c as int + 32) as char else c
  }

  function Lower(s: string): (r: string)
    ensures |r| == |s|
    ensures forall i :: 0 <= i < |s| ==> r[i] == LowerChar(s[i])
  {
    seq(|s|, i requires 0 <= i < |s| => LowerChar(s[i]))
  }

  predicate StartsWith(s: string, prefix: string) {
    |prefix| <= |s| && s[..|prefix|] == prefix
  }

  /** Index of the first character of `s` that `drop` rejects (|s| if none). */
  function SkipLeft(s: string, drop: char -> bool): (i: nat)
    ensures i <= |s|
    ensures forall j :: 0 <= j < i ==> drop(s[j])
    ensures i < |s| ==> !drop(s[i])
  {
    if |s| == 0 || !drop(s[0]) then 0 else 1 + SkipLeft(s[1..], drop)
  }

  /** One past the last character of `s` that `drop` rejects (0 if none). */
  function SkipRight(s: string, drop: char -> bool): (i: nat)
    ensures i <= |s|
    ensures forall j :: i <= j < |s| ==> drop(s[j])
    ensures i > 0 ==> !drop(s[i - 1])
  {
    if |s| == 0 || !drop(s[|s| - 1]) then |s| else SkipRight(s[..|s| - 1], drop)
  }

  /** The boundary `SkipRight` finds is the only one with that shape. */
  lemma {:induction false} SkipRightAt(s: string, drop: char -> bool, k: nat)
    requires k <= |s| && (forall j :: k <= j < |s| ==> drop(s[j])) && (k > 0 ==> !drop(s[k - 1]))
    ensures SkipRight(s, drop) == k
    decreases |s|
  {
    if k < |s| {
      var t := s[..|s| - 1];
      assert forall j :: k <= j < |t| ==> t[j] == s[j];
      assert k > 0 ==> t[k - 1] == s[k - 1];
      SkipRightAt(t, drop, k);
    }
  }

  /** Python's `s.strip(chars)`, with the character set given as a predicate. */
  function TrimBy(s: string, drop: char -> bool): (r: string)
    ensures |r| <= |s|
    ensures |r| > 0 ==> !drop(r[0]) && !drop(r[|r| - 1])
    ensures (|s| == 0 || (!drop(s[0]) && !drop(s[|s| - 1]))) ==> r == s
  {
    var i := SkipLeft(s, drop);
    var t := s[i..];
    var j := SkipRight(t, drop);
    assert t[..j] == s[i..i + j];
    t[..j]
  }

  /** Python's `s.lstrip()` / `s.strip()` / `s.rstrip(c)` / `s.strip(c)`. */
  function LStrip(s: string): (r: string)
    ensures |r| <= |s| && r == s[|s| - |r|..]
    ensures |r| == 0 || !IsSpace(r[0])
  {
    s[SkipLeft(s, IsSpace)..]
  }

  function Strip(s: string): string { TrimBy(s, IsSpace) }

  function StripChar(s: string, c: char): string { TrimBy(s, x => x == c) }

  /** Stripping only removes characters: what is left is a slice of `s`. */
  lemma StripCharInside(s: string, c: char)
    ensures forall k :: 0 <= k < |StripChar(s, c)| ==> StripChar(s, c)[k] in s
  {
    var drop := (x: char) => x == c;
    var i := SkipLeft(s, drop);
    var t := s[i..];
    var j := SkipRight(t, drop);
    assert StripChar(s, c) == s[i..i + j];
  }

  function RStripChar(s: string, c: char): (r: string)
    ensures |r| <= |s| && r == s[..|r|]
    ensures |r| == 0 || r[|r| - 1] != c
  {
    s[..SkipRight(s, x => x == c)]
  }

  lemma TrimByIdempotent(s: string, drop: char -> bool)
    ensures TrimBy(TrimBy(s, drop), drop) == TrimBy(s, drop)
  {
  }

  /** Python's `s.partition(sep)` for a one-character separator. */
  function Partition(s: string, sep: char): (r: (string, bool, string))
    ensures !r.1 ==> r.0 == s && r.2 == [] && sep !in s
    ensures r.1 ==> s == r.0 + [sep] + r.2 && sep !in r.0
  {
    if |s| == 0 then ([], false, [])
    else if s[0] == sep then ([], true, s[1..])
    else
      var (a, found, b) := Partition(s[1..], sep);
      assert found ==> s == [s[0]] + (a + [sep] + b);
      ([s[0]] + a, found, b)
  }

  /** `Partition` splits at the first occurrence of the separator. */
  lemma {:induction false} PartitionUnique(s: string, sep: char, a: string, b: string)
    requires s == a + [sep] + b && sep !in a
    ensures Partition(s, sep) == (a, true, b)
    decreases |a|
  {
    if |a| > 0 {
      assert s[0] == a[0] && a[0] != sep;
      assert s[1..] == a[1..] + [sep] + b;
      PartitionUnique(s[1..], sep, a[1..], b);
      assert a == [a[0]] + a[1..];
    } else {
      assert s[0] == sep && s[1..] == b;
    }
  }

  /** Python's `s.split(sep)` for a non-empty separator: non-overlapping,
      left to right. */
  function Split(s: string, sep: string): (parts: seq<string>)
    requires |sep| > 0
    ensures |parts| >= 1
    decreases |s|
  {
    SplitFrom(s, sep, 0, 0)
  }

  function SplitFrom(s: string, sep: string, start: nat, i: nat): (parts: seq<string>)
    requires |sep| > 0 && start <= i <= |s|
    ensures |parts| >= 1
    decreases |s| - i
  {
    if i + |sep| > |s| then [s[start..]]
    else if s[i..i + |sep|] == sep then [s[start..i]] + SplitFrom(s, sep, i + |sep|, i + |sep|)
    else SplitFrom(s, sep, start, i + 1)
  }

  /** `sep.join(parts)`. */
  function JoinWith(parts: seq<string>, sep: string): string
    decreases |parts|
  {
    if |parts| == 0 then ""
    else if |parts| == 1 then parts[0]
    else parts[0] + sep + JoinWith(parts[1..], sep)
  }

  /** Joining the pieces of a split with the separator gives back the
      text. */
  lemma SplitJoin(s: string, sep: string)
    requires |sep| > 0
    ensures JoinWith(Split(s, sep), sep) == s
  {
    SplitFromJoin(s, sep, 0, 0);
  }

  lemma {:induction false} SplitFromJoin(s: string, sep: string, start: nat, i: nat)
    requires |sep| > 0 && start <= i <= |s|
    ensures JoinWith(SplitFrom(s, sep, start, i), sep) == s[start..]
    decreases |s| - i
  {
    if i + |sep| > |s| {
    } else if s[i..i + |sep|] == sep {
      SplitFromJoin(s, sep, i + |sep|, i + |sep|);
      var rest := SplitFrom(s, sep, i + |sep|, i + |sep|);
      var parts := [s[start..i]] + rest;
      assert parts[1..] == rest;
      assert s[start..] == s[start..i] + s[i..i + |sep|] + s[i + |sep|..];
    } else {
      SplitFromJoin(s, sep, start, i + 1);
    }
  }

  /** `s.replace(a, b)` for single characters. */
  function ReplaceChar(s: string, a: char, b: char): (r: string)
    ensures |r| == |s|
    ensures forall i :: 0 <= i < |s| ==> r[i] == (if s[i] == a then b else s[i])
  {
    seq(|s|, i requires 0 <= i < |s| => if s[i] == a then b else s[i])
  }

  /** Python's `s.replace(pat, rep)` for a non-empty `pat`. */
  function Replace(s: string, pat: string, rep: string): string
    requires |pat| > 0
    decreases |s|
  {
    if |s| < |pat| then s
    else if s[..|pat|] == pat then rep + Replace(s[|pat|..], pat, rep)
    else [s[0]] + Replace(s[1..], pat, rep)
  }

  // ---------------------------------------------------------------------------
  // Decimal integers

  function DigitChar(d: int): char
    requires 0 <= d < 10
  {
    ('0' as int + d) as char
  }

  function DigitValue(c: char): int
    requires IsDigit(c)
  {
    c as int - '0' as int
  }

  /** Python's `str(n)` for a natural number. */
  function NatToString(n: nat): (s: string)
    ensures |s| >= 1
    ensures forall i :: 0 <= i < |s| ==> IsDigit(s[i])
    ensures |s| > 1 ==> s[0] != '0'
    decreases n
  {
    if n < 10 then [DigitChar(n)] else NatToString(n / 10) + [DigitChar(n % 10)]
  }

  function DigitsValue(s: string): nat
    requires forall i :: 0 <= i < |s| ==> IsDigit(s[i])
  {
    if |s| == 0 then 0 else 10 * DigitsValue(s[..|s| - 1]) + DigitValue(s[|s| - 1])
  }

  lemma {:induction false} DigitsOfNat(n: nat)
    ensures DigitsValue(NatToString(n)) == n
    decreases n
  {
    var s := NatToString(n);
    if n >= 10 {
      DigitsOfNat(n / 10);
      assert s[..|s| - 1] == NatToString(n / 10);
    }
  }

  predicate AllDigits(s: string) {
    forall i :: 0 <= i < |s| ==> IsDigit(s[i])
  }

  /** A decimal literal as Python's parser accepts it: digits, no superfluous
      leading zero. */
  function ParseNat(s: string): (r: Option<nat>)
    ensures r.Some? ==> NatToString(r.value) == s
  {
    if |s| == 0 || !AllDigits(s) || (|s| > 1 && s[0] == '0') then None
    else
      var n := DigitsValue(s);
      CanonicalDigits(s);
      Some(n)
  }

  lemma {:induction false} CanonicalDigits(s: string)
    requires |s| > 0 && AllDigits(s) && (|s| > 1 ==> s[0] != '0')
    ensures NatToString(DigitsValue(s)) == s
    decreases |s|
  {
    if |s| == 1 {
    } else {
      var p := s[..|s| - 1];
      CanonicalDigits(p);
      var v := DigitsValue(p);
      assert v >= 1 by { LeadingDigitPositive(p); }
      var n := DigitsValue(s);
      assert n / 10 == v && n % 10 == DigitValue(s[|s| - 1]);
      assert n >= 10;
    }
  }

  lemma {:induction false} LeadingDigitPositive(s: string)
    requires |s| > 0 && AllDigits(s) && s[0] != '0'
    ensures DigitsValue(s) >= 1
    decreases |s|
  {
    if |s| > 1 {
      LeadingDigitPositive(s[..|s| - 1]);
    }
  }

  lemma NatRoundTrip(n: nat)
    ensures ParseNat(NatToString(n)) == Some(n)
  {
    DigitsOfNat(n);
  }

  // ---------------------------------------------------------------------------
  // Ordering: Python compares strings code point by code point.

  predicate LexLe(a: string, b: string)
    decreases |a|
  {
    if |a| == 0 then true
    else if |b| == 0 then false
    else if a[0] != b[0] then a[0] < b[0]
    else LexLe(a[1..], b[1..])
  }

  lemma {:induction false} LexLeTotal(a: string, b: string)
    ensures LexLe(a, b) || LexLe(b, a)
    decreases |a|
  {
    if |a| > 0 && |b| > 0 && a[0] == b[0] {
      LexLeTotal(a[1..], b[1..]);
    }
  }

  lemma {:induction false} LexLeTrans(a: string, b: string, c: string)
    requires LexLe(a, b) && LexLe(b, c)
    ensures LexLe(a, c)
    decreases |a|
  {
    if |a| > 0 && |b| > 0 && |c| > 0 && a[0] == b[0] && b[0] == c[0] {
      LexLeTrans(a[1..], b[1..], c[1..]);
    }
  }

  lemma {:induction false} LexLeAntisym(a: string, b: string)
    requires LexLe(a, b) && LexLe(b, a)
    ensures a == b
    decreases |a|
  {
    if |a| > 0 && |b| > 0 {
      LexLeAntisym(a[1..], b[1..]);
      assert a == [a[0]] + a[1..] && b == [b[0]] + b[1..];
    }
  }

  lemma {:induction false} LexLeRefl(a: string)
    ensures LexLe(a, a)
    decreases |a|
  {
    if |a| > 0 {
      LexLeRefl(a[1..]);
    }
  }
}
