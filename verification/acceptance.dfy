/** The acceptance-text reader of the source-of-truth sync script:
    `normalize` flattens a text to single-spaced words, and
    `extract_acceptance` collects the bullets of a stage document's
    "## Acceptance (CI-verified)" section into one normalised line. The HTML
    table reader and the file handling of the script are left out. */
module Acceptance {
  import opened Base
  import opened Text
  import opened Runs

  // ---------------------------------------------------------------------------
  // normalize

  const Nbsp: char := 0xa0 as char

  /** `normalize(value)`: non-breaking spaces and `**` become spaces, every
      run of whitespace becomes one space, and the ends are stripped. What
      it returns is normal: no non-breaking space, no `**`, no whitespace
      run and nothing to strip. */
  function Normalize(value: string): (r: string)
    ensures Normal(r)
    ensures Nbsp !in r
  {
    var s := Replace(ReplaceChar(value, Nbsp, ' '), "**", " ");
    ReplaceNoStars(ReplaceChar(value, Nbsp, ' '));
    SubRunsNoStars(s);
    SubRunsCollapsed(s, IsSpace, ' ');
    StripKeeps(SubRuns(s, IsSpace, ' '));
    NormalNoNbsp(Strip(SubRuns(s, IsSpace, ' ')));
    Strip(SubRuns(s, IsSpace, ' '))
  }

  /** No `**` anywhere. */
  predicate NoStars(s: string) {
    forall i :: 0 <= i < |s| - 1 ==> !(s[i] == '*' && s[i + 1] == '*')
  }

  /** What `normalize` produces: no `**`, whitespace only as single plain
      spaces, and none at either end. */
  predicate Normal(s: string) {
    && NoStars(s)
    && Collapsed(s, IsSpace, ' ')
    && (|s| > 0 ==> !IsSpace(s[0]) && !IsSpace(s[|s| - 1]))
  }

  lemma NoStarsSlice(s: string, a: nat, b: nat)
    requires NoStars(s) && a <= b <= |s|
    ensures NoStars(s[a..b])
  {
    forall i | 0 <= i < |s[a..b]| - 1
      ensures !(s[a..b][i] == '*' && s[a..b][i + 1] == '*')
    {
      assert s[a..b][i] == s[a + i] && s[a..b][i + 1] == s[a + i + 1];
    }
  }

  /** `Replace` starts with the first character when the pattern does not. */
  lemma ReplaceHead(s: string)
    requires |s| > 0 && s[0] != '*'
    ensures |Replace(s, "**", " ")| > 0 && Replace(s, "**", " ")[0] == s[0]
  {
    if |s| >= 2 {
      assert s[..2] != "**";
    }
  }

  /** Replacing `**` leaves no `**` behind: a lone `*` is never followed by
      another. */
  lemma {:induction false} ReplaceNoStars(s: string)
    ensures NoStars(Replace(s, "**", " "))
    decreases |s|
  {
    if |s| >= 2 {
      var r := Replace(s, "**", " ");
      if s[..2] == "**" {
        ReplaceNoStars(s[2..]);
        assert r == " " + Replace(s[2..], "**", " ");
      } else {
        ReplaceNoStars(s[1..]);
        var t := Replace(s[1..], "**", " ");
        assert r == [s[0]] + t;
        if s[0] == '*' {
          assert s[1] != '*' by {
            assert s[..2] == [s[0], s[1]];
          }
          ReplaceHead(s[1..]);
        }
        forall i | 0 <= i < |r| - 1
          ensures !(r[i] == '*' && r[i + 1] == '*')
        {
          if i > 0 {
            assert r[i] == t[i - 1] && r[i + 1] == t[i];
          }
        }
      }
    }
  }

  /** Without `**` the replacement changes nothing. */
  lemma {:induction false} ReplaceAbsent(s: string)
    requires NoStars(s)
    ensures Replace(s, "**", " ") == s
    decreases |s|
  {
    if |s| >= 2 {
      assert s[..2] != "**" by {
        assert !(s[0] == '*' && s[1] == '*');
      }
      NoStarsSlice(s, 1, |s|);
      ReplaceAbsent(s[1..]);
    }
  }

  /** Collapsing whitespace into plain spaces creates no `**`. */
  lemma {:induction false} SubRunsNoStars(s: string)
    requires NoStars(s)
    ensures NoStars(SubRuns(s, IsSpace, ' '))
    decreases |s|
  {
    if |s| > 0 {
      var r := SubRuns(s, IsSpace, ' ');
      if IsSpace(s[0]) {
        var k := SkipLeft(s, IsSpace);
        NoStarsSlice(s, k, |s|);
        SubRunsNoStars(s[k..]);
        var t := SubRuns(s[k..], IsSpace, ' ');
        assert r == [' '] + t;
        forall i | 0 <= i < |r| - 1
          ensures !(r[i] == '*' && r[i + 1] == '*')
        {
          if i > 0 {
            assert r[i] == t[i - 1] && r[i + 1] == t[i];
          }
        }
      } else {
        NoStarsSlice(s, 1, |s|);
        SubRunsNoStars(s[1..]);
        var t := SubRuns(s[1..], IsSpace, ' ');
        assert r == [s[0]] + t;
        forall i | 0 <= i < |r| - 1
          ensures !(r[i] == '*' && r[i + 1] == '*')
        {
          if i > 0 {
            assert r[i] == t[i - 1] && r[i + 1] == t[i];
          } else {
            assert s[0] == '*' ==> s[1] != '*';
          }
        }
      }
    }
  }

  /** Stripping cuts a slice out of the middle. */
  lemma StripSlice(s: string)
    ensures exists a: nat, b: nat :: a <= b <= |s| && Strip(s) == s[a..b]
  {
    var i := SkipLeft(s, IsSpace);
    var t := s[i..];
    var j := SkipRight(t, IsSpace);
    assert Strip(s) == s[i..i + j];
  }

  lemma StripKeeps(s: string)
    requires NoStars(s) && Collapsed(s, IsSpace, ' ')
    ensures NoStars(Strip(s)) && Collapsed(Strip(s), IsSpace, ' ')
  {
    StripSlice(s);
    var a: nat, b: nat :| a <= b <= |s| && Strip(s) == s[a..b];
    NoStarsSlice(s, a, b);
    CollapsedSlice(s, IsSpace, ' ', a, b);
  }

  lemma NormalNoNbsp(s: string)
    requires Collapsed(s, IsSpace, ' ')
    ensures Nbsp !in s
  {
    assert IsSpace(Nbsp);
  }

  /** Normal text is its own normal form. */
  lemma NormalFixed(s: string)
    requires Normal(s)
    ensures Normalize(s) == s
  {
    NormalNoNbsp(s);
    assert ReplaceChar(s, Nbsp, ' ') == s;
    ReplaceAbsent(s);
    CollapsedFixed(s, IsSpace, ' ');
  }

  /** Normalising twice is normalising once. */
  lemma NormalizeIdempotent(value: string)
    ensures Normalize(Normalize(value)) == Normalize(value)
  {
    NormalFixed(Normalize(value));
  }

  // ---------------------------------------------------------------------------
  // Lines

  /** The characters `str.splitlines` breaks at. */
  predicate IsLineBreak(c: char) {
    var n := c as int;
    (0x0a <= n <= 0x0d) || (0x1c <= n <= 0x1e) || n == 0x85 || n == 0x2028 || n == 0x2029
  }

  predicate InLine(c: char) { !IsLineBreak(c) }

  predicate NoBreak(line: string) {
    forall i :: 0 <= i < |line| ==> !IsLineBreak(line[i])
  }

  /** `s.splitlines()`: a line ends at a break character, `\r\n` counting as
      one break, and a final break opens no empty line. */
  function SplitLines(s: string): (lines: seq<string>)
    ensures forall i :: 0 <= i < |lines| ==> NoBreak(lines[i])
    decreases |s|
  {
    if |s| == 0 then []
    else
      var i := SkipLeft(s, InLine);
      if i == |s| then [s]
      else
        var next := if s[i] == '\r' && i + 1 < |s| && s[i + 1] == '\n' then i + 2 else i + 1;
        [s[..i]] + SplitLines(s[next..])
  }

  /** A text made of lines, each ended by `\n`. */
  function Terminated(lines: seq<string>): string
    decreases |lines|
  {
    if |lines| == 0 then "" else lines[0] + "\n" + Terminated(lines[1..])
  }

  /** Splitting a text of `\n`-terminated lines gives the lines back. */
  lemma {:induction false} SplitTerminated(lines: seq<string>)
    requires forall i :: 0 <= i < |lines| ==> NoBreak(lines[i])
    ensures SplitLines(Terminated(lines)) == lines
    decreases |lines|
  {
    if |lines| > 0 {
      SplitHead(lines[0], Terminated(lines[1..]));
      SplitTerminated(lines[1..]);
    }
  }

  /** A line ended by `\n` splits off as the first line. */
  lemma SplitHead(line: string, rest: string)
    requires NoBreak(line)
    ensures SplitLines(line + "\n" + rest) == [line] + SplitLines(rest)
  {
    var s := line + "\n" + rest;
    var i := SkipLeft(s, InLine);
    assert !InLine(s[|line|]);
    assert forall j :: 0 <= j < |line| ==> s[j] == line[j];
    assert forall j :: 0 <= j < |line| ==> InLine(s[j]);
    assert i == |line|;
    assert s[..i] == line && s[i + 1..] == rest;
  }

  // ---------------------------------------------------------------------------
  // extract_acceptance

  const Header: string := "## Acceptance (CI-verified)"

  /** Where the loop is: before the header, inside the block with the
      bullets collected so far, or stopped by `break`. */
  datatype Block = Before | Inside(items: seq<string>) | Ended(items: seq<string>)

  function Collected(b: Block): seq<string> {
    if b.Before? then [] else b.items
  }

  /** One turn of the loop. A header line (re)opens the block; inside it a
      `## ` line stops the loop, a `- ` bullet starts an item, an indented
      line continues the last item, a blank line is skipped and any other
      line stops the loop. */
  function Step(b: Block, line: string): Block {
    var stripped := Strip(line);
    if b.Ended? then b
    else if stripped == Header then Inside(Collected(b))
    else if b.Before? then b
    else if StartsWith(line, "## ") then Ended(b.items)
    else if StartsWith(stripped, "- ") then Inside(b.items + [stripped[2..]])
    else if (StartsWith(line, "  ") || StartsWith(line, "\t")) && |b.items| > 0 then
      Inside(b.items[..|b.items| - 1] + [b.items[|b.items| - 1] + " " + stripped])
    else if |stripped| == 0 then b
    else Ended(b.items)
  }

  function Run(b: Block, lines: seq<string>): Block
    decreases |lines|
  {
    if |lines| == 0 then b else Step(Run(b, lines[..|lines| - 1]), lines[|lines| - 1])
  }

  /** `" ".join(items)`. */
  function Join(items: seq<string>): string
    decreases |items|
  {
    if |items| == 0 then ""
    else if |items| == 1 then items[0]
    else Join(items[..|items| - 1]) + " " + items[|items| - 1]
  }

  function ExtractLines(lines: seq<string>): string {
    Normalize(Join(Collected(Run(Before, lines))))
  }

  /** `extract_acceptance(markdown)`: whatever the document, the result is
      normal text. */
  function Extract(markdown: string): (r: string)
    ensures Normal(r)
  {
    ExtractLines(SplitLines(markdown))
  }

  lemma RunSnoc(b: Block, lines: seq<string>, line: string)
    ensures Run(b, lines + [line]) == Step(Run(b, lines), line)
  {
    var zs := lines + [line];
    assert zs[..|zs| - 1] == lines;
  }

  lemma {:induction false} RunAppend(b: Block, xs: seq<string>, ys: seq<string>)
    ensures Run(b, xs + ys) == Run(Run(b, xs), ys)
    decreases |ys|
  {
    if |ys| == 0 {
      assert xs + ys == xs;
    } else {
      var init := ys[..|ys| - 1];
      var last := ys[|ys| - 1];
      assert ys == init + [last];
      assert xs + ys == (xs + init) + [last];
      RunAppend(b, xs, init);
      RunSnoc(b, xs + init, last);
      RunSnoc(Run(b, xs), init, last);
    }
  }

  /** Without the exact header line the loop never enters the block. */
  lemma {:induction false} NoHeaderStaysBefore(lines: seq<string>)
    requires forall i :: 0 <= i < |lines| ==> Strip(lines[i]) != Header
    ensures Run(Before, lines) == Before
    decreases |lines|
  {
    if |lines| > 0 {
      NoHeaderStaysBefore(lines[..|lines| - 1]);
    }
  }

  /** A document without the header yields the empty text. */
  lemma NoHeaderNothing(markdown: string)
    requires forall i :: 0 <= i < |SplitLines(markdown)| ==> Strip(SplitLines(markdown)[i]) != Header
    ensures Extract(markdown) == ""
  {
    NoHeaderStaysBefore(SplitLines(markdown));
    assert Normalize("") == "";
  }

  /** After `break` nothing more is read, not even another header. */
  lemma {:induction false} EndedStays(items: seq<string>, lines: seq<string>)
    ensures Run(Ended(items), lines) == Ended(items)
    decreases |lines|
  {
    if |lines| > 0 {
      EndedStays(items, lines[..|lines| - 1]);
    }
  }

  /** Inside the block, the next `## ` section ends collection: whatever
      follows is ignored. */
  lemma SectionEnds(pre: seq<string>, line: string, post: seq<string>)
    requires Run(Before, pre).Inside?
    requires StartsWith(line, "## ") && Strip(line) != Header
    ensures Run(Before, pre + [line] + post) == Ended(Run(Before, pre).items)
  {
    RunAppend(Before, pre + [line], post);
    assert (pre + [line])[..|pre|] == pre;
    EndedStays(Run(Before, pre).items, post);
  }

  /** Inside the block, the first other non-blank line ends collection: a
      line that is neither the header, a bullet nor a continuation of one
      stops the loop, and whatever follows is ignored. */
  lemma OtherLineEnds(pre: seq<string>, line: string, post: seq<string>)
    requires Run(Before, pre).Inside?
    requires |Strip(line)| > 0 && Strip(line) != Header && !StartsWith(Strip(line), "- ")
    requires !(StartsWith(line, "  ") || StartsWith(line, "\t")) || |Run(Before, pre).items| == 0
    ensures Run(Before, pre + [line] + post) == Ended(Run(Before, pre).items)
  {
    RunAppend(Before, pre + [line], post);
    RunSnoc(Before, pre, line);
    EndedStays(Run(Before, pre).items, post);
  }

  /** Inside the block, a blank line that does not continue a bullet is
      skipped: the bullets collected so far are kept and the loop goes on. */
  lemma BlankSkipped(pre: seq<string>, line: string)
    requires Run(Before, pre).Inside?
    requires |Strip(line)| == 0
    requires !(StartsWith(line, "  ") || StartsWith(line, "\t")) || |Run(Before, pre).items| == 0
    ensures Run(Before, pre + [line]) == Run(Before, pre)
  {
    RunSnoc(Before, pre, line);
  }

  /** An indented line inside the block continues the last bullet. */
  lemma ContinuationJoins(pre: seq<string>, line: string)
    requires Run(Before, pre).Inside? && |Run(Before, pre).items| > 0
    requires StartsWith(line, "  ") && Strip(line) != Header && !StartsWith(Strip(line), "- ")
    ensures var items := Run(Before, pre).items;
      Run(Before, pre + [line]) == Inside(items[..|items| - 1] + [items[|items| - 1] + " " + Strip(line)])
  {
    RunSnoc(Before, pre, line);
    ContinuationStep(Run(Before, pre).items, line);
  }

  lemma ContinuationStep(items: seq<string>, line: string)
    requires |items| > 0
    requires StartsWith(line, "  ") && Strip(line) != Header && !StartsWith(Strip(line), "- ")
    ensures Step(Inside(items), line) == Inside(items[..|items| - 1] + [items[|items| - 1] + " " + Strip(line)])
  {
    StartsDiffer(line, "  ", "## ");
  }

  /** A line cannot start with two prefixes whose first characters differ. */
  lemma StartsDiffer(s: string, p: string, q: string)
    requires StartsWith(s, p) && |p| > 0 && |q| > 0 && p[0] != q[0]
    ensures !StartsWith(s, q)
  {
    assert s[..|p|][0] == s[0];
    assert |q| <= |s| ==> s[..|q|][0] == s[0];
  }

  /** One `- ` bullet line per item. */
  function Bullets(items: seq<string>): (lines: seq<string>)
    ensures |lines| == |items|
    ensures forall i :: 0 <= i < |items| ==> lines[i] == "- " + items[i]
    decreases |items|
  {
    if |items| == 0 then [] else Bullets(items[..|items| - 1]) + ["- " + items[|items| - 1]]
  }

  /** The lines of an acceptance section: the header, then the bullets. */
  function Section(items: seq<string>): seq<string> {
    [Header] + Bullets(items)
  }

  /** A bullet item that survives the round trip: normal, not empty. */
  predicate Item(item: string) {
    |item| > 0 && Normal(item)
  }

  lemma BulletLine(items: seq<string>, item: string)
    requires Item(item)
    ensures Step(Inside(items), "- " + item) == Inside(items + [item])
  {
    var line := "- " + item;
    assert !IsSpace(line[0]) && line[|line| - 1] == item[|item| - 1];
    assert Strip(line) == line;
    assert line[0] == '-' && Header[0] == '#';
    assert StartsWith(line, "- ") by {
      assert line[..2] == "- ";
    }
    assert line[2..] == item;
  }

  lemma {:induction false} BulletsCollected(pre: seq<string>, items: seq<string>)
    requires Run(Before, pre) == Inside([])
    requires forall i :: 0 <= i < |items| ==> Item(items[i])
    ensures Run(Before, pre + Bullets(items)) == Inside(items)
    decreases |items|
  {
    if |items| == 0 {
      NoTail(pre, Bullets(items));
    } else {
      var init := items[..|items| - 1];
      var item := items[|items| - 1];
      BulletsCollected(pre, init);
      Assoc(pre, Bullets(init), ["- " + item]);
      RunSnoc(Before, pre + Bullets(init), "- " + item);
      BulletLine(init, item);
      InitLast(items);
    }
  }

  /** The header opens the block. */
  lemma HeaderOpens(pre: seq<string>)
    requires forall i :: 0 <= i < |pre| ==> Strip(pre[i]) != Header
    ensures Run(Before, pre + [Header]) == Inside([])
  {
    NoHeaderStaysBefore(pre);
    RunSnoc(Before, pre, Header);
    HeaderStep();
  }

  lemma HeaderStep()
    ensures Step(Before, Header) == Inside([])
  {
    HeaderStripped();
  }

  lemma HeaderStripped()
    ensures Strip(Header) == Header
  {
    assert !IsSpace(Header[0]) && !IsSpace(Header[|Header| - 1]);
  }

  lemma SectionCollected(pre: seq<string>, items: seq<string>)
    requires forall i :: 0 <= i < |pre| ==> Strip(pre[i]) != Header
    requires forall i :: 0 <= i < |items| ==> Item(items[i])
    ensures Run(Before, pre + Section(items)) == Inside(items)
  {
    HeaderOpens(pre);
    BulletsCollected(pre + [Header], items);
    Assoc(pre, [Header], Bullets(items));
  }

  /** Joining normal, non-empty items with single spaces is normal. */
  lemma {:induction false} JoinNormal(items: seq<string>)
    requires forall i :: 0 <= i < |items| ==> Item(items[i])
    ensures Normal(Join(items)) && (|items| > 0 ==> |Join(items)| > 0)
    decreases |items|
  {
    if |items| > 1 {
      JoinNormal(items[..|items| - 1]);
      ConcatNormal(Join(items[..|items| - 1]), items[|items| - 1]);
    }
  }

  lemma ConcatNormal(a: string, b: string)
    requires Normal(a) && Normal(b) && |a| > 0 && |b| > 0
    ensures Normal(a + " " + b)
  {
    var s := a + " " + b;
    assert forall i :: 0 <= i < |a| ==> s[i] == a[i];
    assert s[|a|] == ' ';
    assert forall i :: 0 <= i < |b| ==> s[|a| + 1 + i] == b[i];
    forall i | 0 <= i < |s| - 1
      ensures !(s[i] == '*' && s[i + 1] == '*')
    {
      if i + 1 < |a| {
        assert s[i] == a[i] && s[i + 1] == a[i + 1];
      } else if i > |a| {
        assert s[i] == b[i - |a| - 1] && s[i + 1] == b[i - |a|];
      }
    }
    forall i | 0 <= i < |s| && IsSpace(s[i])
      ensures s[i] == ' ' && (i + 1 < |s| ==> !IsSpace(s[i + 1]))
    {
      if i + 1 < |a| {
        assert s[i + 1] == a[i + 1];
      } else if i > |a| {
        assert s[i] == b[i - |a| - 1];
        assert i + 1 < |s| ==> s[i + 1] == b[i - |a|];
      }
    }
  }

  /** The round trip: a section of normal bullets between any lines without
      the header and the next `## ` section (or the end) extracts to the
      bullets joined by single spaces. */
  lemma ExtractSection(pre: seq<string>, items: seq<string>, post: seq<string>)
    requires forall i :: 0 <= i < |pre| ==> Strip(pre[i]) != Header
    requires forall i :: 0 <= i < |items| ==> Item(items[i])
    requires |post| > 0 ==> StartsWith(post[0], "## ") && Strip(post[0]) != Header
    ensures ExtractLines(pre + Section(items) + post) == Join(items)
  {
    SectionThenPost(pre, items, post);
    ExtractOf(pre + Section(items) + post, items);
  }

  lemma SectionThenPost(pre: seq<string>, items: seq<string>, post: seq<string>)
    requires forall i :: 0 <= i < |pre| ==> Strip(pre[i]) != Header
    requires forall i :: 0 <= i < |items| ==> Item(items[i])
    requires |post| > 0 ==> StartsWith(post[0], "## ") && Strip(post[0]) != Header
    ensures Collected(Run(Before, pre + Section(items) + post)) == items
  {
    SectionCollected(pre, items);
    var body := pre + Section(items);
    if |post| > 0 {
      SectionEnds(body, post[0], post[1..]);
      HeadTail(post);
      Assoc(body, [post[0]], post[1..]);
    } else {
      NoTail(body, post);
    }
  }

  lemma ExtractOf(lines: seq<string>, items: seq<string>)
    requires Collected(Run(Before, lines)) == items
    requires forall i :: 0 <= i < |items| ==> Item(items[i])
    ensures ExtractLines(lines) == Join(items)
  {
    JoinNormal(items);
    NormalFixed(Join(items));
  }

  lemma AllAppend<T>(a: seq<T>, b: seq<T>, p: T -> bool)
    requires forall i :: 0 <= i < |a| ==> p(a[i])
    requires forall i :: 0 <= i < |b| ==> p(b[i])
    ensures forall i :: 0 <= i < |a + b| ==> p((a + b)[i])
  {
  }

  /** Normal text holds no line break: every whitespace in it is a plain
      space. */
  lemma NormalNoBreak(s: string)
    requires Normal(s)
    ensures NoBreak(s)
  {
    forall i | 0 <= i < |s|
      ensures !IsLineBreak(s[i])
    {
      assert IsLineBreak(s[i]) ==> IsSpace(s[i]);
    }
  }

  lemma SectionNoBreak(items: seq<string>)
    requires forall i :: 0 <= i < |items| ==> Item(items[i])
    ensures forall i :: 0 <= i < |Section(items)| ==> NoBreak(Section(items)[i])
  {
    var bs := Bullets(items);
    forall i | 0 <= i < |bs|
      ensures NoBreak(bs[i])
    {
      NormalNoBreak(items[i]);
      assert bs[i] == "- " + items[i];
    }
    assert NoBreak(Header);
    AllAppend([Header], bs, NoBreak);
  }

  /** The same round trip through the text of a document whose lines end in
      `\n`: `extract_acceptance` returns the section's bullets joined by
      single spaces. */
  lemma ExtractDocument(pre: seq<string>, items: seq<string>, post: seq<string>)
    requires forall i :: 0 <= i < |pre| ==> NoBreak(pre[i]) && Strip(pre[i]) != Header
    requires forall i :: 0 <= i < |post| ==> NoBreak(post[i])
    requires forall i :: 0 <= i < |items| ==> Item(items[i])
    requires |post| > 0 ==> StartsWith(post[0], "## ") && Strip(post[0]) != Header
    ensures Extract(Terminated(pre + Section(items) + post)) == Join(items)
  {
    var lines := pre + Section(items) + post;
    SectionNoBreak(items);
    AllAppend(pre, Section(items), NoBreak);
    AllAppend(pre + Section(items), post, NoBreak);
    SplitTerminated(lines);
    ExtractSection(pre, items, post);
  }
}
