/** Greedy farthest-point selection of medoid rows (`_farthest_point_indices`):
    start from the row of largest squared norm, then repeatedly take the row
    whose highest similarity to the rows already chosen is lowest, ties going
    to the lower index. */
module Medoids {
  import opened Base
  import opened Vectors
  import opened Sorting

  /** A similarity slot: a finite inner product, or `float("inf")` marking a
      row that is already chosen. */
  datatype Ext = Fin(v: real) | Inf

  predicate ExtLe(a: Ext, b: Ext) {
    b.Inf? || (a.Fin? && a.v <= b.v)
  }

  /** Python's `max(a, b)`. */
  function ExtMax(a: Ext, b: Ext): (m: Ext)
    ensures ExtLe(a, m) && ExtLe(b, m) && (m == a || m == b)
  {
    if ExtLe(b, a) then a else b
  }

  /** The order of the key `(sims[idx], idx)`. */
  predicate KeyLe(a: Ext, i: int, b: Ext, j: int) {
    (ExtLe(a, b) && a != b) || (a == b && i <= j)
  }

  // ---------------------------------------------------------------------------
  // Specification

  /** `f` is the first row of largest squared norm. */
  predicate IsFirstOfMax(vecs: seq<seq<real>>, f: int) {
    && 0 <= f < |vecs|
    && (forall j :: 0 <= j < |vecs| ==> SumSq(vecs[j]) <= SumSq(vecs[f]))
    && (forall j :: 0 <= j < f ==> SumSq(vecs[j]) < SumSq(vecs[f]))
  }

  predicate InRange(sel: seq<nat>, n: nat) {
    forall i :: 0 <= i < |sel| ==> sel[i] < n
  }

  /** The highest similarity of row `j` to the chosen rows. */
  function MaxSim(vecs: seq<seq<real>>, sel: seq<nat>, j: nat): real
    requires |sel| > 0 && InRange(sel, |vecs|) && j < |vecs|
  {
    var last := Dot(vecs[j], vecs[sel[|sel| - 1]]);
    if |sel| == 1 then last
    else
      var m := MaxSim(vecs, sel[..|sel| - 1], j);
      if last > m then last else m
  }

  /** `c` is the next row greedy selection takes after `prefix`: not yet
      chosen, and no unchosen row has a lower key `(MaxSim, index)`. */
  predicate GreedyStep(vecs: seq<seq<real>>, prefix: seq<nat>, c: nat)
    requires |prefix| > 0 && InRange(prefix, |vecs|) && c < |vecs|
  {
    && c !in prefix
    && forall j :: 0 <= j < |vecs| && j !in prefix ==>
         KeyLe(Fin(MaxSim(vecs, prefix, c)), c, Fin(MaxSim(vecs, prefix, j)), j)
  }

  /** How many rows are chosen: `min(cap, n)`, none when that is not positive. */
  function MedoidCount(n: nat, cap: int): nat {
    if n == 0 then 0 else Max(0, Min(cap, n))
  }

  /** `sel` is the farthest-point order of `vecs` capped at `cap`. */
  ghost predicate IsFarthestOrder(vecs: seq<seq<real>>, cap: int, sel: seq<nat>) {
    && |sel| == MedoidCount(|vecs|, cap)
    && Distinct(sel)
    && InRange(sel, |vecs|)
    && (|sel| > 0 ==> IsFirstOfMax(vecs, sel[0]))
    && (forall t :: 1 <= t < |sel| ==> GreedyStep(vecs, sel[..t], sel[t]))
  }

  /** The specification leaves no choice: there is one farthest-point order. */
  lemma FarthestOrderUnique(vecs: seq<seq<real>>, cap: int, a: seq<nat>, b: seq<nat>)
    requires IsFarthestOrder(vecs, cap, a) && IsFarthestOrder(vecs, cap, b)
    ensures a == b
  {
    if |a| > 0 {
      assert SumSq(vecs[a[0]]) <= SumSq(vecs[b[0]]) <= SumSq(vecs[a[0]]);
      SamePrefix(vecs, cap, a, b, |a|);
    }
  }

  lemma {:induction false} SamePrefix(vecs: seq<seq<real>>, cap: int, a: seq<nat>, b: seq<nat>, k: nat)
    requires IsFarthestOrder(vecs, cap, a) && IsFarthestOrder(vecs, cap, b)
    requires 1 <= k <= |a| && a[0] == b[0]
    ensures a[..k] == b[..k]
    decreases k
  {
    if k > 1 {
      var t := k - 1;
      SamePrefix(vecs, cap, a, b, t);
      GreedyAt(vecs, cap, a, t);
      GreedyAt(vecs, cap, b, t);
      var p := a[..t];
      assert GreedyStep(vecs, p, b[t]);
      GreedyStepUnique(vecs, p, a[t], b[t]);
      PrefixSnoc(a, b, t);
    }
  }

  lemma PrefixSnoc(a: seq<nat>, b: seq<nat>, t: nat)
    requires t < |a| && t < |b| && a[..t] == b[..t] && a[t] == b[t]
    ensures a[..t + 1] == b[..t + 1]
  {
    assert a[..t + 1] == a[..t] + [a[t]] && b[..t + 1] == b[..t] + [b[t]];
  }

  /** Each pick after the first is the greedy one after its predecessors. */
  lemma GreedyAt(vecs: seq<seq<real>>, cap: int, sel: seq<nat>, t: nat)
    requires IsFarthestOrder(vecs, cap, sel) && 1 <= t < |sel|
    ensures |sel[..t]| > 0 && InRange(sel[..t], |vecs|) && sel[t] < |vecs|
    ensures GreedyStep(vecs, sel[..t], sel[t])
  {
  }

  /** Two rows both greedy after the same prefix are the same row. */
  lemma GreedyStepUnique(vecs: seq<seq<real>>, prefix: seq<nat>, x: nat, y: nat)
    requires |prefix| > 0 && InRange(prefix, |vecs|) && x < |vecs| && y < |vecs|
    requires GreedyStep(vecs, prefix, x) && GreedyStep(vecs, prefix, y)
    ensures x == y
  {
    assert KeyLe(Fin(MaxSim(vecs, prefix, x)), x, Fin(MaxSim(vecs, prefix, y)), y);
    assert KeyLe(Fin(MaxSim(vecs, prefix, y)), y, Fin(MaxSim(vecs, prefix, x)), x);
  }

  // ---------------------------------------------------------------------------
  // The algorithm

  /** The first row of largest squared norm: a running strict maximum that
      starts below every squared norm. */
  method FirstOfMax(vecs: seq<seq<real>>) returns (f: nat)
    requires |vecs| > 0
    ensures IsFirstOfMax(vecs, f)
  {
    var best := -1.0;
    f := 0;
    var i := 0;
    while i < |vecs|
      invariant 0 <= i <= |vecs| && f < |vecs|
      invariant i == 0 ==> best == -1.0 && f == 0
      invariant i > 0 ==> f < i && best == SumSq(vecs[f])
      invariant forall j :: 0 <= j < i ==> SumSq(vecs[j]) <= best
      invariant forall j :: 0 <= j < f ==> SumSq(vecs[j]) < best
    {
      var normSq := SumSq(vecs[i]);
      if normSq > best {
        best := normSq;
        f := i;
      }
      i := i + 1;
    }
  }

  /** `min(range(n), key=lambda idx: (sims[idx], idx))`. */
  method ArgMin(sims: seq<Ext>) returns (c: nat)
    requires |sims| > 0
    ensures c < |sims|
    ensures forall j :: 0 <= j < |sims| ==> KeyLe(sims[c], c, sims[j], j)
  {
    c := 0;
    var i := 1;
    while i < |sims|
      invariant 1 <= i <= |sims| && c < i
      invariant forall j :: 0 <= j < i ==> KeyLe(sims[c], c, sims[j], j)
    {
      if ExtLe(sims[i], sims[c]) && sims[i] != sims[c] {
        c := i;
      }
      i := i + 1;
    }
  }

  /** The similarity slots while `sel` is chosen: `inf` for chosen rows, the
      highest similarity to the chosen rows for the others. */
  ghost predicate SimsFor(vecs: seq<seq<real>>, sel: seq<nat>, sims: seq<Ext>)
    requires |sel| > 0 && InRange(sel, |vecs|)
  {
    && |sims| == |vecs|
    && forall j :: 0 <= j < |vecs| ==>
         sims[j] == if j in sel then Inf else Fin(MaxSim(vecs, sel, j))
  }

  /** `_farthest_point_indices(vecs, cap)`. */
  method FarthestPointIndices(vecs: seq<seq<real>>, cap: int) returns (selected: seq<nat>)
    ensures IsFarthestOrder(vecs, cap, selected)
  {
    var n := |vecs|;
    if n == 0 {
      return [];
    }
    var count := Min(cap, n);
    if count <= 0 {
      return [];
    }
    var first := FirstOfMax(vecs);
    selected := [first];
    if count == 1 {
      return;
    }
    var sims := seq(n, j requires 0 <= j < n => if j == first then Inf else Fin(Dot(vecs[j], vecs[first])));
    while |selected| < count
      invariant 1 <= |selected| <= count
      invariant Distinct(selected) && InRange(selected, n) && selected[0] == first
      invariant forall t :: 1 <= t < |selected| ==> GreedyStep(vecs, selected[..t], selected[t])
      invariant SimsFor(vecs, selected, sims)
      decreases count - |selected|
    {
      var candidate := ArgMin(sims);
      // `_farthest_point_indices` re-picks while the candidate is already
      // chosen; chosen rows hold `inf` and an unchosen row holds a finite
      // value, so the first pick is never a chosen row.
      PickIsGreedy(vecs, selected, sims, candidate);
      var next := selected + [candidate];
      RaiseSims(vecs, selected, sims, candidate);
      ExtendOrder(vecs, selected, candidate);
      sims := RaiseSlots(vecs, sims, next, candidate);
      selected := next;
    }
  }

  /** After choosing `c`: every slot becomes the larger of itself and the
      similarity to `c`, then chosen rows are reset to `inf`. */
  function RaiseSlots(vecs: seq<seq<real>>, sims: seq<Ext>, chosen: seq<nat>, c: nat): (r: seq<Ext>)
    requires |sims| == |vecs| && c < |vecs|
    ensures |r| == |vecs|
    ensures forall j :: 0 <= j < |vecs| ==>
      r[j] == if j in chosen then Inf else ExtMax(sims[j], Fin(Dot(vecs[j], vecs[c])))
  {
    seq(|vecs|, j requires 0 <= j < |vecs| =>
      if j in chosen then Inf else ExtMax(sims[j], Fin(Dot(vecs[j], vecs[c]))))
  }

  /** The lowest key among all slots belongs to an unchosen row and is the
      greedy choice. */
  lemma PickIsGreedy(vecs: seq<seq<real>>, sel: seq<nat>, sims: seq<Ext>, c: nat)
    requires |sel| > 0 && InRange(sel, |vecs|) && Distinct(sel) && |sel| < |vecs|
    requires SimsFor(vecs, sel, sims) && c < |sims|
    requires forall j :: 0 <= j < |sims| ==> KeyLe(sims[c], c, sims[j], j)
    ensures c !in sel && GreedyStep(vecs, sel, c)
  {
    UnchosenExists(sel, |vecs|);
    var u :| 0 <= u < |vecs| && u !in sel;
    assert ExtLe(sims[c], sims[u]);
  }

  /** Raising the slots for a new choice `c` keeps them describing the
      chosen rows. */
  lemma RaiseSims(vecs: seq<seq<real>>, sel: seq<nat>, sims: seq<Ext>, c: nat)
    requires |sel| > 0 && InRange(sel, |vecs|) && c < |vecs| && c !in sel
    requires SimsFor(vecs, sel, sims)
    ensures InRange(sel + [c], |vecs|)
    ensures SimsFor(vecs, sel + [c], RaiseSlots(vecs, sims, sel + [c], c))
  {
    var next := sel + [c];
    assert next[..|next| - 1] == sel;
    var r := RaiseSlots(vecs, sims, next, c);
    forall j | 0 <= j < |vecs| && j !in next
      ensures r[j] == Fin(MaxSim(vecs, next, j))
    {
      assert j !in sel;
    }
  }

  /** Appending the greedy choice keeps the chosen list a distinct, in-range
      greedy order. */
  lemma ExtendOrder(vecs: seq<seq<real>>, sel: seq<nat>, c: nat)
    requires |sel| > 0 && InRange(sel, |vecs|) && Distinct(sel) && c < |vecs|
    requires forall t :: 1 <= t < |sel| ==> GreedyStep(vecs, sel[..t], sel[t])
    requires GreedyStep(vecs, sel, c)
    ensures InRange(sel + [c], |vecs|) && Distinct(sel + [c])
    ensures forall t :: 1 <= t < |sel + [c]| ==> GreedyStep(vecs, (sel + [c])[..t], (sel + [c])[t])
  {
    var next := sel + [c];
    assert next[..|sel|] == sel;
    forall i, j | 0 <= i < j < |next|
      ensures next[i] != next[j]
    {
      if j == |sel| {
        assert next[i] in sel;
      }
    }
    forall t | 1 <= t < |next|
      ensures GreedyStep(vecs, next[..t], next[t])
    {
      if t < |sel| {
        assert next[..t] == sel[..t];
      }
    }
  }

  /** Fewer distinct chosen indices than rows leaves a row unchosen. */
  lemma UnchosenExists(sel: seq<nat>, n: nat)
    requires Distinct(sel) && |sel| < n
    ensures exists u :: 0 <= u < n && u !in sel
  {
    if forall u :: 0 <= u < n ==> u in sel {
      var all: seq<nat> := seq(n, i requires 0 <= i < n => i);
      assert Distinct(all);
      assert forall x :: x in all ==> x in sel;
      SubsetLength(all, sel);
      assert false;
    }
  }
}
