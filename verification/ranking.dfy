/** Brute-force top-k ranking: `sorted(enumerate(scores), key=lambda x:
    (-x[1], x[0]))[:k]`. Higher scores come first and equal scores keep
    ascending insertion index. */
module Ranking {
  import opened Base
  import opened Sorting

  datatype Hit = Hit(idx: nat, score: real)

  /** `enumerate(scores)`. */
  function Enumerate(scores: seq<real>): (r: seq<Hit>)
    ensures |r| == |scores|
    ensures forall i :: 0 <= i < |r| ==> r[i] == Hit(i, scores[i])
  {
    seq(|scores|, i requires 0 <= i < |scores| => Hit(i, scores[i]))
  }

  /** The order of the key `(-score, idx)`. */
  predicate HitLe(a: Hit, b: Hit) {
    a.score > b.score || (a.score == b.score && a.idx <= b.idx)
  }

  lemma HitLeOrder()
    ensures TotalPreorder(HitLe) && Antisymmetric(HitLe)
  {
  }

  function Ids(hits: seq<Hit>): (ids: seq<nat>)
    ensures |ids| == |hits|
    ensures forall i :: 0 <= i < |hits| ==> ids[i] == hits[i].idx
  {
    seq(|hits|, i requires 0 <= i < |hits| => hits[i].idx)
  }

  function Scores(hits: seq<Hit>): (ss: seq<real>)
    ensures |ss| == |hits|
    ensures forall i :: 0 <= i < |hits| ==> ss[i] == hits[i].score
  {
    seq(|hits|, i requires 0 <= i < |hits| => hits[i].score)
  }

  /** Number of elements Python's `s[:k]` keeps of a list of length `n`. */
  function SliceCount(n: nat, k: int): nat {
    if k >= 0 then Min(k, n) else Max(0, n + k)
  }

  /** The first `k` hits (Python slice semantics) in ranking order. */
  function RankHits(scores: seq<real>, k: int): seq<Hit> {
    PyPrefix(Sort(Enumerate(scores), HitLe), k)
  }

  /** A hit list is a correct top-k answer for `scores`: the right number of
      hits, each naming a distinct in-range position with its own score, in
      ranking order, and every position left out ranks after every one kept. */
  ghost predicate IsTopK(scores: seq<real>, k: int, r: seq<Hit>) {
    && |r| == SliceCount(|scores|, k)
    && SortedBy(r, HitLe)
    && (forall i :: 0 <= i < |r| ==> r[i].idx < |scores| && r[i].score == scores[r[i].idx])
    && Distinct(Ids(r))
    && (forall i, j :: 0 <= i < |r| && 0 <= j < |scores| && j !in Ids(r) ==> HitLe(r[i], Hit(j, scores[j])))
  }

  /** `RankHits` is a correct top-k answer. */
  lemma RankHitsSpec(scores: seq<real>, k: int)
    ensures IsTopK(scores, k, RankHits(scores, k))
  {
    var e := Enumerate(scores);
    var s := Sort(e, HitLe);
    var r := RankHits(scores, k);
    SortedHits(scores);
    assert r == s[..|r|];
    assert Ids(r) == Ids(s)[..|r|];
    forall i, j | 0 <= i < |r| && 0 <= j < |scores| && j !in Ids(r)
      ensures HitLe(r[i], Hit(j, scores[j]))
    {
      assert e[j] in multiset(s);
      var p :| 0 <= p < |s| && s[p] == e[j];
      assert p >= |r|;
      assert HitLe(s[i], s[p]);
    }
  }

  /** The sorted enumeration: in ranking order, a permutation of the
      enumeration, every hit naming its own position and score, no position
      twice. */
  lemma SortedHits(scores: seq<real>)
    ensures var e := Enumerate(scores); var s := Sort(e, HitLe);
      && SortedBy(s, HitLe) && multiset(s) == multiset(e) && |s| == |scores|
      && (forall i :: 0 <= i < |s| ==> s[i].idx < |scores| && s[i].score == scores[s[i].idx])
      && Distinct(Ids(s))
  {
    var e := Enumerate(scores);
    var s := Sort(e, HitLe);
    HitLeOrder();
    SortSorted(e, HitLe);
    forall i | 0 <= i < |s|
      ensures s[i].idx < |scores| && s[i].score == scores[s[i].idx]
    {
      assert s[i] in multiset(e);
    }
    forall i, j | 0 <= i < j < |s|
      ensures s[i].idx != s[j].idx
    {
      if s[i].idx == s[j].idx {
        assert s[i] == s[j];
        DistinctByMultiset(s, e);
      }
    }
  }

  /** Under `HitLe`, a top-k answer is unique: any correct procedure returns
      exactly `RankHits`. */
  lemma TopKUnique(scores: seq<real>, k: int, r: seq<Hit>)
    requires IsTopK(scores, k, r)
    ensures r == RankHits(scores, k)
  {
    RankHitsSpec(scores, k);
    var t := RankHits(scores, k);
    HitLeOrder();
    SameSelection(scores, k, r, t);
    SortedUnique(r, t, HitLe);
  }

  /** Two top-k answers select the same hits. */
  lemma SameSelection(scores: seq<real>, k: int, r: seq<Hit>, t: seq<Hit>)
    requires IsTopK(scores, k, r) && IsTopK(scores, k, t)
    ensures multiset(r) == multiset(t)
  {
    assert forall x :: x in r ==> x in t by {
      forall x | x in r
        ensures x in t
      {
        var i :| 0 <= i < |r| && r[i] == x;
        InOther(scores, k, r, t, i);
      }
    }
    DistinctHits(r);
    DistinctHits(t);
    SameSetSameMultiset(r, t);
  }

  lemma InOther(scores: seq<real>, k: int, r: seq<Hit>, t: seq<Hit>, i: nat)
    requires IsTopK(scores, k, r) && IsTopK(scores, k, t) && i < |r|
    ensures r[i] in t
  {
    var x := r[i];
    if x.idx !in Ids(t) {
      // Then every hit of `t` is among the first `i` hits of `r`, too few
      // for `t`'s length.
      OutrankedByAll(scores, k, r, t, i);
      DistinctHits(t);
      SubsetLength(t, r[..i]);
      assert false;
    } else {
      var p :| 0 <= p < |t| && Ids(t)[p] == x.idx;
      assert t[p] == Hit(x.idx, scores[x.idx]) == x;
    }
  }

  /** If `r[i]` is missing from `t`, every hit of `t` ranks before it and so
      is one of the first `i` hits of `r`. */
  lemma OutrankedByAll(scores: seq<real>, k: int, r: seq<Hit>, t: seq<Hit>, i: nat)
    requires IsTopK(scores, k, r) && IsTopK(scores, k, t) && i < |r|
    requires r[i].idx !in Ids(t)
    ensures forall p :: 0 <= p < |t| ==> t[p] in r[..i]
  {
    HitLeOrder();
    var x := r[i];
    forall p | 0 <= p < |t|
      ensures t[p] in r[..i]
    {
      assert HitLe(t[p], Hit(x.idx, scores[x.idx]));
      if t[p].idx !in Ids(r) {
        assert false;
      }
      var q :| 0 <= q < |r| && Ids(r)[q] == t[p].idx;
      assert r[q] == t[p];
      if q >= i {
        assert false;
      }
      assert r[..i][q] == t[p];
    }
  }

  /** Hits with distinct ids are distinct. */
  lemma DistinctHits(r: seq<Hit>)
    requires Distinct(Ids(r))
    ensures Distinct(r)
  {
    forall i, j | 0 <= i < j < |r|
      ensures r[i] != r[j]
    {
      assert Ids(r)[i] != Ids(r)[j];
    }
  }
}
