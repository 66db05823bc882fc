/** Python's `sorted`/`list.sort` with a key, as a stable insertion sort over
    a "sorts no later than" relation `le` on the elements. Every sort in the
    modelled code orders by a key under which equal keys mean equal elements
    (or are made so by deduplication), so the result is determined by its
    multiset and its order alone (`SortedUnique`): the insertion sort stands
    for Timsort. */
module Sorting {
  import opened Base

  ghost predicate Total<T(!new)>(le: (T, T) -> bool) {
    forall a, b :: le(a, b) || le(b, a)
  }

  ghost predicate Transitive<T(!new)>(le: (T, T) -> bool) {
    forall a, b, c :: le(a, b) && le(b, c) ==> le(a, c)
  }

  ghost predicate TotalPreorder<T(!new)>(le: (T, T) -> bool) {
    Total(le) && Transitive(le)
  }

  /** Elements that sort together are the same element. */
  ghost predicate Antisymmetric<T(!new)>(le: (T, T) -> bool) {
    forall a, b :: le(a, b) && le(b, a) ==> a == b
  }

  predicate SortedBy<T>(s: seq<T>, le: (T, T) -> bool) {
    forall i, j :: 0 <= i < j < |s| ==> le(s[i], s[j])
  }

  /** Inserts `x` after every element that sorts no later than it, which
      keeps equal elements in arrival order. */
  function Insert<T>(x: T, s: seq<T>, le: (T, T) -> bool): (r: seq<T>)
    ensures |r| == |s| + 1
    ensures multiset(r) == multiset(s) + multiset{x}
  {
    if |s| == 0 then [x]
    else if le(s[0], x) then
      assert s == [s[0]] + s[1..];
      [s[0]] + Insert(x, s[1..], le)
    else [x] + s
  }

  lemma {:induction false} InsertSorted<T(!new)>(x: T, s: seq<T>, le: (T, T) -> bool)
    requires TotalPreorder(le) && SortedBy(s, le)
    ensures SortedBy(Insert(x, s, le), le)
    decreases |s|
  {
    if |s| > 0 {
      if le(s[0], x) {
        var tail := s[1..];
        InsertSorted(x, tail, le);
        var rest := Insert(x, tail, le);
        var r := [s[0]] + rest;
        forall j | 0 < j < |r|
          ensures le(r[0], r[j])
        {
          var e := rest[j - 1];
          assert e in multiset(rest);
          if e == x {
          } else {
            assert e in multiset(tail);
            var k :| 0 <= k < |tail| && tail[k] == e;
            assert s[k + 1] == e;
          }
        }
      } else {
        var r := [x] + s;
        assert le(x, s[0]);
        forall j | 0 < j < |r|
          ensures le(r[0], r[j])
        {
          if j > 1 {
            assert le(s[0], s[j - 1]);
          }
        }
      }
    }
  }

  /** Python's `sorted(s, key=...)`. */
  function Sort<T>(s: seq<T>, le: (T, T) -> bool): (r: seq<T>)
    ensures |r| == |s|
    ensures multiset(r) == multiset(s)
  {
    if |s| == 0 then []
    else
      assert s == s[..|s| - 1] + [s[|s| - 1]];
      Insert(s[|s| - 1], Sort(s[..|s| - 1], le), le)
  }

  lemma {:induction false} SortSorted<T(!new)>(s: seq<T>, le: (T, T) -> bool)
    requires TotalPreorder(le)
    ensures SortedBy(Sort(s, le), le)
    decreases |s|
  {
    if |s| > 0 {
      SortSorted(s[..|s| - 1], le);
      InsertSorted(s[|s| - 1], Sort(s[..|s| - 1], le), le);
    }
  }

  /** No two different elements of `xs` sort together. */
  ghost predicate AntisymmetricOn<T(!new)>(xs: seq<T>, le: (T, T) -> bool) {
    forall a, b :: a in xs && b in xs && le(a, b) && le(b, a) ==> a == b
  }

  /** Under an antisymmetric order a sorted arrangement of a multiset is
      unique: any correct sort gives the same list. */
  lemma SortedUnique<T(!new)>(a: seq<T>, b: seq<T>, le: (T, T) -> bool)
    requires Total(le) && Antisymmetric(le)
    requires SortedBy(a, le) && SortedBy(b, le) && multiset(a) == multiset(b)
    ensures a == b
  {
    SortedUniqueOn(a, b, le);
  }

  /** The same when only the elements at hand never sort together. */
  lemma {:induction false} SortedUniqueOn<T(!new)>(a: seq<T>, b: seq<T>, le: (T, T) -> bool)
    requires Total(le) && AntisymmetricOn(a, le)
    requires SortedBy(a, le) && SortedBy(b, le) && multiset(a) == multiset(b)
    ensures a == b
    decreases |a|
  {
    assert |a| == |multiset(a)| == |b|;
    if |a| > 0 {
      HeadsEqual(a, b, le);
      assert a == [a[0]] + a[1..] && b == [b[0]] + b[1..];
      assert multiset(a[1..]) == multiset(a) - multiset{a[0]};
      assert multiset(b[1..]) == multiset(b) - multiset{b[0]};
      AntisymmetricOnTail(a, le);
      SortedUniqueOn(a[1..], b[1..], le);
    }
  }

  lemma HeadsEqual<T(!new)>(a: seq<T>, b: seq<T>, le: (T, T) -> bool)
    requires Total(le) && AntisymmetricOn(a, le)
    requires SortedBy(a, le) && SortedBy(b, le) && multiset(a) == multiset(b)
    requires |a| > 0 && |b| > 0
    ensures a[0] == b[0]
  {
    assert a[0] in multiset(b);
    var j :| 0 <= j < |b| && b[j] == a[0];
    assert b[0] in multiset(a);
    var i :| 0 <= i < |a| && a[i] == b[0];
    Reflexive(a[0], le);
    Reflexive(b[0], le);
    assert le(b[0], a[0]) by {
      if j > 0 {
        assert le(b[0], b[j]);
      }
    }
    assert le(a[0], b[0]) by {
      if i > 0 {
        assert le(a[0], a[i]);
      }
    }
    AntisymmetricAt(a, le, a[0], b[0]);
  }

  lemma AntisymmetricAt<T(!new)>(xs: seq<T>, le: (T, T) -> bool, x: T, y: T)
    requires AntisymmetricOn(xs, le) && x in xs && y in xs && le(x, y) && le(y, x)
    ensures x == y
  {
  }

  lemma AntisymmetricOnTail<T(!new)>(xs: seq<T>, le: (T, T) -> bool)
    requires AntisymmetricOn(xs, le) && |xs| > 0
    ensures AntisymmetricOn(xs[1..], le)
  {
    forall x, y | x in xs[1..] && y in xs[1..] && le(x, y) && le(y, x)
      ensures x == y
    {
      AntisymmetricAt(xs, le, x, y);
    }
  }

  lemma {:induction false} InsertLast<T>(x: T, s: seq<T>, le: (T, T) -> bool)
    requires forall i :: 0 <= i < |s| ==> le(s[i], x)
    ensures Insert(x, s, le) == s + [x]
    decreases |s|
  {
    if |s| > 0 {
      InsertLast(x, s[1..], le);
      assert s == [s[0]] + s[1..];
    }
  }

  /** A list already in order comes back unchanged, even when distinct
      elements sort together. */
  lemma {:induction false} SortedFixed<T>(s: seq<T>, le: (T, T) -> bool)
    requires SortedBy(s, le)
    ensures Sort(s, le) == s
    decreases |s|
  {
    if |s| > 0 {
      var init := s[..|s| - 1];
      SortedFixed(init, le);
      InsertLast(s[|s| - 1], init, le);
      assert init + [s[|s| - 1]] == s;
    }
  }

  /** The elements of `s` that sort together with `x`, in their order in `s`. */
  function Ties<T>(s: seq<T>, le: (T, T) -> bool, x: T): (r: seq<T>)
    ensures |r| <= |s|
    ensures forall i :: 0 <= i < |r| ==> le(r[i], x) && le(x, r[i])
  {
    if |s| == 0 then []
    else (if le(s[0], x) && le(x, s[0]) then [s[0]] else []) + Ties(s[1..], le, x)
  }

  lemma {:induction false} TiesAppend<T>(a: seq<T>, b: seq<T>, le: (T, T) -> bool, x: T)
    ensures Ties(a + b, le, x) == Ties(a, le, x) + Ties(b, le, x)
    decreases |a|
  {
    if |a| > 0 {
      assert (a + b)[1..] == a[1..] + b;
      TiesAppend(a[1..], b, le, x);
      var h := if le(a[0], x) && le(x, a[0]) then [a[0]] else [];
      Assoc(h, Ties(a[1..], le, x), Ties(b, le, x));
    } else {
      assert a + b == b;
    }
  }

  /** Nothing in `s` ties with `x` when none of its elements does. */
  lemma {:induction false} NoTies<T>(s: seq<T>, le: (T, T) -> bool, x: T)
    requires forall i :: 0 <= i < |s| ==> !(le(s[i], x) && le(x, s[i]))
    ensures Ties(s, le, x) == []
    decreases |s|
  {
    if |s| > 0 {
      NoTies(s[1..], le, x);
    }
  }

  /** Inserting `y` into a sorted list puts it after everything it ties with. */
  lemma {:induction false} InsertTies<T(!new)>(y: T, s: seq<T>, le: (T, T) -> bool, x: T)
    requires TotalPreorder(le) && SortedBy(s, le)
    ensures Ties(Insert(y, s, le), le, x) == Ties(s, le, x) + Ties([y], le, x)
    decreases |s|
  {
    if |s| == 0 {
      assert Insert(y, s, le) == [y];
    } else if le(s[0], y) {
      var h := if le(s[0], x) && le(x, s[0]) then [s[0]] else [];
      InsertTies(y, s[1..], le, x);
      assert Insert(y, s, le) == [s[0]] + Insert(y, s[1..], le);
      assert Ties(Insert(y, s, le), le, x) == h + Ties(Insert(y, s[1..], le), le, x);
      Assoc(h, Ties(s[1..], le, x), Ties([y], le, x));
    } else {
      assert Insert(y, s, le) == [y] + s;
      TiesAppend([y], s, le, x);
      if le(y, x) && le(x, y) {
        forall i | 0 <= i < |s|
          ensures !(le(s[i], x) && le(x, s[i]))
        {
          assert le(s[0], s[i]) by {
            if i > 0 {
              assert SortedBy(s, le);
            } else {
              Reflexive(s[0], le);
            }
          }
        }
        NoTies(s, le, x);
      } else {
        assert Ties([y], le, x) == [];
      }
    }
  }

  /** The sort is stable: the elements that sort together with any `x`
      come out in the order they went in, as Python's sort promises. */
  lemma {:induction false} SortStable<T(!new)>(s: seq<T>, le: (T, T) -> bool, x: T)
    requires TotalPreorder(le)
    ensures Ties(Sort(s, le), le, x) == Ties(s, le, x)
    decreases |s|
  {
    if |s| > 0 {
      var init := s[..|s| - 1];
      var y := s[|s| - 1];
      SortStable(init, le, x);
      SortSorted(init, le);
      InsertTies(y, Sort(init, le), le, x);
      assert init + [y] == s;
      TiesAppend(init, [y], le, x);
    }
  }

  lemma Reflexive<T(!new)>(x: T, le: (T, T) -> bool)
    requires Total(le)
    ensures le(x, x)
  {
  }

  /** Sorting what is already sorted changes nothing. */
  lemma SortOfSorted<T(!new)>(s: seq<T>, le: (T, T) -> bool)
    requires TotalPreorder(le) && Antisymmetric(le) && SortedBy(s, le)
    ensures Sort(s, le) == s
  {
    SortSorted(s, le);
    SortedUnique(Sort(s, le), s, le);
  }

  /** Elements of a sorted list taken from the front sort no later than the
      ones left behind. */
  lemma SortedPrefixBeatsRest<T>(s: seq<T>, le: (T, T) -> bool, k: nat)
    requires SortedBy(s, le) && k <= |s|
    ensures forall i, j :: 0 <= i < k <= j < |s| ==> le(s[i], s[j])
  {
  }

  /** A rearrangement of a list without repeats has no repeats. */
  lemma DistinctByMultiset<T>(a: seq<T>, b: seq<T>)
    requires multiset(a) == multiset(b) && Distinct(b)
    ensures Distinct(a)
  {
    forall i, j | 0 <= i < j < |a|
      ensures a[i] != a[j]
    {
      if a[i] == a[j] {
        TwoOccurrences(a, i, j);
        AtMostOnce(b, a[i]);
      }
    }
  }

  lemma TwoOccurrences<T>(a: seq<T>, i: nat, j: nat)
    requires i < j < |a| && a[i] == a[j]
    ensures multiset(a)[a[i]] >= 2
  {
    assert a == a[..j] + a[j..];
    assert a[i] in a[..j];
    assert a[j] == a[j..][0];
  }

  lemma {:induction false} AtMostOnce<T>(b: seq<T>, x: T)
    requires Distinct(b)
    ensures multiset(b)[x] <= 1
    decreases |b|
  {
    if |b| > 0 {
      assert b == [b[0]] + b[1..];
      AtMostOnce(b[1..], x);
      if b[0] == x {
        assert x !in b[1..] by {
          forall t | 0 <= t < |b[1..]|
            ensures b[1..][t] != x
          {
            assert b[1..][t] == b[t + 1];
          }
        }
      }
    }
  }

  /** A repeat-free list drawn from `b` is no longer than `b`. */
  lemma {:induction false} SubsetLength<T>(a: seq<T>, b: seq<T>)
    requires Distinct(a) && forall x :: x in a ==> x in b
    ensures |a| <= |b|
    decreases |b|
  {
    if |a| > 0 {
      var x := a[|a| - 1];
      assert x in a;
      var j :| 0 <= j < |b| && b[j] == x;
      var a' := a[..|a| - 1];
      var b' := b[..j] + b[j + 1..];
      forall y | y in a'
        ensures y in b'
      {
        var i :| 0 <= i < |a'| && a'[i] == y;
        assert a[i] == y && y != x;
        assert y in a;
        var m :| 0 <= m < |b| && b[m] == y;
        if m < j {
          assert b'[m] == y;
        } else {
          assert b'[m - 1] == y;
        }
      }
      SubsetLength(a', b');
    }
  }

  /** Two repeat-free lists with the same elements and length have the same
      multiset. */
  lemma SameSetSameMultiset<T>(a: seq<T>, b: seq<T>)
    requires Distinct(a) && Distinct(b) && |a| == |b|
    requires forall x :: x in a ==> x in b
    ensures multiset(a) == multiset(b)
  {
    forall x
      ensures multiset(a)[x] == multiset(b)[x]
    {
      AtMostOnce(a, x);
      AtMostOnce(b, x);
      if x in b {
        AllPresent(a, b, x);
      }
    }
  }

  lemma AllPresent<T>(a: seq<T>, b: seq<T>, x: T)
    requires Distinct(a) && Distinct(b) && |a| == |b|
    requires forall y :: y in a ==> y in b
    requires x in b
    ensures x in a
  {
    if x !in a {
      var j :| 0 <= j < |b| && b[j] == x;
      var b' := b[..j] + b[j + 1..];
      forall y | y in a
        ensures y in b'
      {
        var m :| 0 <= m < |b| && b[m] == y;
        if m < j {
          assert b'[m] == y;
        } else {
          assert m != j;
          assert b'[m - 1] == y;
        }
      }
      SubsetLength(a, b');
      assert false;
    }
  }
}
