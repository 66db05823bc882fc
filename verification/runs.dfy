/** `re.sub(r"[class]+", rep, s)`: every maximal run of characters of one
    class becomes a single replacement character. The acceptance text
    normaliser collapses whitespace this way and the wheel builder collapses
    runs of `-`, `_` and `.` in project names. */
module Runs {
  import opened Base
  import opened Text

  /** Replaces each maximal run of `p`-characters in `s` by `rep`. */
  function SubRuns(s: string, p: char -> bool, rep: char): (r: string)
    ensures |r| <= |s|
    ensures |r| > 0 <==> |s| > 0
    ensures |s| > 0 ==> r[0] == (if p(s[0]) then rep else s[0])
    decreases |s|
  {
    if |s| == 0 then []
    else if p(s[0]) then [rep] + SubRuns(s[SkipLeft(s, p)..], p, rep)
    else [s[0]] + SubRuns(s[1..], p, rep)
  }

  /** A maximal run, standing between text that ends and text that starts
      outside the class, becomes exactly one `rep`, and the text on either
      side is substituted on its own. */
  lemma SubRunsSplit(x: string, run: string, y: string, p: char -> bool, rep: char)
    requires |run| > 0 && forall i :: 0 <= i < |run| ==> p(run[i])
    requires |x| == 0 || !p(x[|x| - 1])
    requires |y| == 0 || !p(y[0])
    ensures SubRuns(x + run + y, p, rep) == SubRuns(x, p, rep) + [rep] + SubRuns(y, p, rep)
  {
    SubRunsAppend(x, run + y, p, rep);
    SplitAtRun(run, y, p, rep);
    Assoc(x, run, y);
    Assoc(SubRuns(x, p, rep), [rep], SubRuns(y, p, rep));
  }

  /** Text that ends outside the class is substituted independently of
      what follows it. */
  lemma {:induction false} SubRunsAppend(a: string, b: string, p: char -> bool, rep: char)
    requires |a| == 0 || !p(a[|a| - 1])
    ensures SubRuns(a + b, p, rep) == SubRuns(a, p, rep) + SubRuns(b, p, rep)
    decreases |a|
  {
    if |a| == 0 {
      assert a + b == b;
    } else if p(a[0]) {
      var k := SkipLeft(a, p);
      assert a[k..][|a[k..]| - 1] == a[|a| - 1];
      SkipHead(a, b, p, rep);
      SubRunsAppend(a[k..], b, p, rep);
      Assoc([rep], SubRuns(a[k..], p, rep), SubRuns(b, p, rep));
    } else {
      assert |a| == 1 || a[1..][|a| - 2] == a[|a| - 1];
      KeepHead(a, b, p, rep);
      SubRunsAppend(a[1..], b, p, rep);
      Assoc([a[0]], SubRuns(a[1..], p, rep), SubRuns(b, p, rep));
    }
  }

  /** The case of `SubRunsSplit` with nothing before the run. */
  lemma SplitAtRun(run: string, y: string, p: char -> bool, rep: char)
    requires |run| > 0 && forall i :: 0 <= i < |run| ==> p(run[i])
    requires |y| == 0 || !p(y[0])
    ensures SubRuns(run + y, p, rep) == [rep] + SubRuns(y, p, rep)
  {
    SkipRun(run, y, p);
    RunHead(run + y, p, rep);
    assert (run + y)[|run|..] == y;
  }

  /** A string that starts with a class character loses its leading run. */
  lemma RunHead(s: string, p: char -> bool, rep: char)
    requires |s| > 0 && p(s[0])
    ensures SubRuns(s, p, rep) == [rep] + SubRuns(s[SkipLeft(s, p)..], p, rep)
  {
  }

  /** A leading run that ends inside `x` is replaced the same way whatever
      follows `x`. */
  lemma SkipHead(x: string, t: string, p: char -> bool, rep: char)
    requires |x| > 0 && p(x[0]) && SkipLeft(x, p) < |x|
    ensures SubRuns(x + t, p, rep) == [rep] + SubRuns(x[SkipLeft(x, p)..] + t, p, rep)
    ensures SubRuns(x, p, rep) == [rep] + SubRuns(x[SkipLeft(x, p)..], p, rep)
  {
    var k := SkipLeft(x, p);
    SkipWithin(x, t, p);
    assert (x + t)[0] == x[0];
    assert (x + t)[k..] == x[k..] + t;
  }

  /** A leading character outside the class is kept whatever follows. */
  lemma KeepHead(x: string, t: string, p: char -> bool, rep: char)
    requires |x| > 0 && !p(x[0])
    ensures SubRuns(x + t, p, rep) == [x[0]] + SubRuns(x[1..] + t, p, rep)
    ensures SubRuns(x, p, rep) == [x[0]] + SubRuns(x[1..], p, rep)
  {
    assert (x + t)[0] == x[0];
    assert (x + t)[1..] == x[1..] + t;
  }

  /** A run followed by text that starts outside the class is skipped
      exactly. */
  lemma SkipRun(run: string, y: string, p: char -> bool)
    requires forall i :: 0 <= i < |run| ==> p(run[i])
    requires |y| == 0 || !p(y[0])
    ensures SkipLeft(run + y, p) == |run|
  {
    var s := run + y;
    assert forall j :: 0 <= j < |run| ==> s[j] == run[j];
    if |y| > 0 {
      assert s[|run|] == y[0];
    }
  }

  /** Skipping stops inside `x` when `x` has a character outside the class,
      whatever follows it. */
  lemma SkipWithin(x: string, tail: string, p: char -> bool)
    requires SkipLeft(x, p) < |x|
    ensures SkipLeft(x + tail, p) == SkipLeft(x, p)
  {
    var s := x + tail;
    var k := SkipLeft(x, p);
    assert forall j :: 0 <= j < |x| ==> s[j] == x[j];
    assert s[k] == x[k];
  }

  /** Every class character is `rep` and none follows another. */
  predicate Collapsed(s: string, p: char -> bool, rep: char) {
    forall i :: 0 <= i < |s| && p(s[i]) ==> s[i] == rep && (i + 1 < |s| ==> !p(s[i + 1]))
  }

  /** The characters outside the class, in order. */
  function Others(s: string, p: char -> bool): (r: string)
    ensures |r| <= |s|
    ensures forall i :: 0 <= i < |r| ==> !p(r[i])
  {
    if |s| == 0 then []
    else if p(s[0]) then Others(s[1..], p)
    else [s[0]] + Others(s[1..], p)
  }

  /** The result of a substitution has no run left to collapse. */
  lemma {:induction false} SubRunsCollapsed(s: string, p: char -> bool, rep: char)
    ensures Collapsed(SubRuns(s, p, rep), p, rep)
    decreases |s|
  {
    if |s| > 0 {
      var r := SubRuns(s, p, rep);
      if p(s[0]) {
        var t := s[SkipLeft(s, p)..];
        SubRunsCollapsed(t, p, rep);
        assert r == [rep] + SubRuns(t, p, rep);
        assert |t| > 0 ==> !p(t[0]);
      } else {
        SubRunsCollapsed(s[1..], p, rep);
        assert r == [s[0]] + SubRuns(s[1..], p, rep);
      }
    }
  }

  /** A string with no run left to collapse is its own substitution. */
  lemma {:induction false} CollapsedFixed(s: string, p: char -> bool, rep: char)
    requires Collapsed(s, p, rep)
    ensures SubRuns(s, p, rep) == s
    decreases |s|
  {
    if |s| > 0 {
      assert Collapsed(s[1..], p, rep) by {
        forall i | 0 <= i < |s[1..]| && p(s[1..][i])
          ensures s[1..][i] == rep && (i + 1 < |s[1..]| ==> !p(s[1..][i + 1]))
        {
          assert s[1..][i] == s[i + 1];
        }
      }
      if p(s[0]) {
        assert |s| > 1 ==> !p(s[1]);
        assert SkipLeft(s, p) == 1;
      }
      CollapsedFixed(s[1..], p, rep);
    }
  }

  /** Substituting twice is substituting once. */
  lemma SubRunsIdempotent(s: string, p: char -> bool, rep: char)
    ensures SubRuns(SubRuns(s, p, rep), p, rep) == SubRuns(s, p, rep)
  {
    SubRunsCollapsed(s, p, rep);
    CollapsedFixed(SubRuns(s, p, rep), p, rep);
  }

  /** When the replacement belongs to the class, the characters outside it
      survive unchanged and in order. */
  lemma {:induction false} SubRunsKeepsOthers(s: string, p: char -> bool, rep: char)
    requires p(rep)
    ensures Others(SubRuns(s, p, rep), p) == Others(s, p)
    decreases |s|
  {
    if |s| > 0 {
      if p(s[0]) {
        var k := SkipLeft(s, p);
        SubRunsKeepsOthers(s[k..], p, rep);
        OthersSkip(s, p, k);
        assert SubRuns(s, p, rep) == [rep] + SubRuns(s[k..], p, rep);
        assert ([rep] + SubRuns(s[k..], p, rep))[1..] == SubRuns(s[k..], p, rep);
      } else {
        SubRunsKeepsOthers(s[1..], p, rep);
        assert SubRuns(s, p, rep) == [s[0]] + SubRuns(s[1..], p, rep);
        assert ([s[0]] + SubRuns(s[1..], p, rep))[1..] == SubRuns(s[1..], p, rep);
      }
    }
  }

  /** Dropping a prefix of class characters does not change the others. */
  lemma {:induction false} OthersSkip(s: string, p: char -> bool, k: nat)
    requires k <= |s| && forall j :: 0 <= j < k ==> p(s[j])
    ensures Others(s[k..], p) == Others(s, p)
    decreases k
  {
    if k > 0 {
      assert s[1..][k - 1..] == s[k..];
      OthersSkip(s[1..], p, k - 1);
    }
  }

  /** Collapsed strings stay collapsed when cut. */
  lemma CollapsedSlice(s: string, p: char -> bool, rep: char, a: nat, b: nat)
    requires Collapsed(s, p, rep) && a <= b <= |s|
    ensures Collapsed(s[a..b], p, rep)
  {
    forall i | 0 <= i < |s[a..b]| && p(s[a..b][i])
      ensures s[a..b][i] == rep && (i + 1 < |s[a..b]| ==> !p(s[a..b][i + 1]))
    {
      assert s[a..b][i] == s[a + i];
    }
  }
}
