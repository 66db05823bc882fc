/** The naming helpers of the in-tree PEP 517 build backend: the normalised
    project name and the PEP 440 form of the version. The RECORD digests are
    in module WheelRecord. */
module BuildBackend {
  import opened Base
  import opened Text
  import opened Runs

  // ---------------------------------------------------------------------------
  // normalized_name

  predicate IsNameSep(c: char) { c == '-' || c == '_' || c == '.' }

  /** `re.sub(r"[-_.]+", "_", name).lower()`. The normalised name has no
      `-` or `.`, no two separators in a row and no upper-case ASCII letter,
      and it is never longer than the name. */
  function NormalizedName(name: string): (r: string)
    ensures '-' !in r && '.' !in r
    ensures Collapsed(r, IsNameSep, '_')
    ensures forall i :: 0 <= i < |r| ==> !('A' <= r[i] <= 'Z')
    ensures |r| <= |name|
  {
    SubRunsCollapsed(name, IsNameSep, '_');
    LowerCollapsed(SubRuns(name, IsNameSep, '_'));
    Lower(SubRuns(name, IsNameSep, '_'))
  }

  /** Each maximal run of `-`, `_` and `.` becomes one `_`: cutting the
      name at such a run cuts the normalised name at that `_`. */
  lemma NameSplit(x: string, run: string, y: string)
    requires |run| > 0 && forall i :: 0 <= i < |run| ==> IsNameSep(run[i])
    requires |x| == 0 || !IsNameSep(x[|x| - 1])
    requires |y| == 0 || !IsNameSep(y[0])
    ensures NormalizedName(x + run + y) == NormalizedName(x) + "_" + NormalizedName(y)
  {
    SubRunsSplit(x, run, y, IsNameSep, '_');
    var a := SubRuns(x, IsNameSep, '_');
    var b := SubRuns(y, IsNameSep, '_');
    LowerAppend(a + "_", b);
    LowerAppend(a, "_");
  }

  /** A name without separators is only lower-cased. */
  lemma NameWithoutSeps(name: string)
    requires forall i :: 0 <= i < |name| ==> !IsNameSep(name[i])
    ensures NormalizedName(name) == Lower(name)
  {
    assert Collapsed(name, IsNameSep, '_');
    CollapsedFixed(name, IsNameSep, '_');
  }

  lemma LowerAppend(a: string, b: string)
    ensures Lower(a + b) == Lower(a) + Lower(b)
  {
    assert forall i :: 0 <= i < |a + b| ==> Lower(a + b)[i] == (Lower(a) + Lower(b))[i];
  }

  lemma LowerKeepsSeps(c: char)
    ensures IsNameSep(LowerChar(c)) <==> IsNameSep(c)
    ensures IsNameSep(c) ==> LowerChar(c) == c
  {
  }

  lemma LowerCollapsed(s: string)
    requires Collapsed(s, IsNameSep, '_')
    ensures Collapsed(Lower(s), IsNameSep, '_')
  {
    var r := Lower(s);
    forall i | 0 <= i < |r| && IsNameSep(r[i])
      ensures r[i] == '_' && (i + 1 < |r| ==> !IsNameSep(r[i + 1]))
    {
      LowerKeepsSeps(s[i]);
      if i + 1 < |r| {
        LowerKeepsSeps(s[i + 1]);
      }
    }
  }

  lemma LowerIdempotent(s: string)
    ensures Lower(Lower(s)) == Lower(s)
  {
  }

  /** Normalising a normalised name changes nothing. */
  lemma NameIdempotent(name: string)
    ensures NormalizedName(NormalizedName(name)) == NormalizedName(name)
  {
    var s := SubRuns(name, IsNameSep, '_');
    assert NormalizedName(name) == Lower(s);
    CollapsedFixed(Lower(s), IsNameSep, '_');
    LowerIdempotent(s);
  }

  lemma {:induction false} OthersLower(s: string)
    ensures Others(Lower(s), IsNameSep) == Lower(Others(s, IsNameSep))
    decreases |s|
  {
    if |s| > 0 {
      OthersLower(s[1..]);
      LowerKeepsSeps(s[0]);
      assert Lower(s)[1..] == Lower(s[1..]);
      if !IsNameSep(s[0]) {
        assert Lower([s[0]] + Others(s[1..], IsNameSep)) == [LowerChar(s[0])] + Lower(Others(s[1..], IsNameSep));
      }
    }
  }

  /** Only separators change: the other characters of the name survive, in
      order, lower-cased. */
  lemma NameKeepsLetters(name: string)
    ensures Others(NormalizedName(name), IsNameSep) == Lower(Others(name, IsNameSep))
  {
    var s := SubRuns(name, IsNameSep, '_');
    OthersLower(s);
    SubRunsKeepsOthers(name, IsNameSep, '_');
  }

  // ---------------------------------------------------------------------------
  // _normalize_version

  /** The alternatives of the suffix pattern of `_normalize_version`, in the
      order the pattern lists them; a regular expression takes the first one
      that matches. */
  const LabelsAsWritten: seq<string> :=
    ["alpha", "beta", "rc", "pre", "preview", "c", "post", "rev", "r", "dev", "final", "ga"]

  /** The same alternatives with `preview` ahead of its prefix `pre`. */
  const Labels: seq<string> :=
    ["alpha", "beta", "rc", "preview", "pre", "c", "post", "rev", "r", "dev", "final", "ga"]

  /** The PEP 440 spelling of each tag; a tag outside the table stays. */
  function Short(tag: string): string {
    if tag == "alpha" then "a"
    else if tag == "beta" then "b"
    else if tag == "c" || tag == "pre" || tag == "preview" || tag == "rc" then "rc"
    else if tag == "post" || tag == "rev" || tag == "r" then "post"
    else if tag == "dev" then "dev"
    else if tag == "final" || tag == "ga" then ""
    else tag
  }

  /** `s` starts with `tag`, ignoring ASCII case. */
  predicate StartsWithCI(s: string, tag: string) {
    |tag| <= |s| && Lower(s[..|tag|]) == tag
  }

  /** The first alternative that matches at the start of `s`. */
  function FirstLabel(s: string, labels: seq<string>): (r: Option<string>)
    ensures r.Some? ==> r.value in labels && StartsWithCI(s, r.value)
    decreases |labels|
  {
    if |labels| == 0 then None
    else if StartsWithCI(s, labels[0]) then Some(labels[0])
    else FirstLabel(s, labels[1..])
  }

  /** A match of `-(tag)\.?([0-9]*)`: the tag, how many characters it
      spans, and the digits. */
  datatype Hit = Hit(tag: string, len: nat, digits: string)

  /** The match at the start of `s`, if any: a `-`, the first alternative
      that fits, an optional `.`, then as many digits as follow. */
  function MatchAt(s: string, labels: seq<string>): (r: Option<Hit>)
    ensures r.Some? ==> 1 <= r.value.len <= |s| && AllDigits(r.value.digits)
  {
    if |s| == 0 || s[0] != '-' then None
    else
      match FirstLabel(s[1..], labels)
      case None => None
      case Some(tag) => Some(TagHit(tag, s[1 + |tag|..]))
  }

  /** The match once `-` and the tag are read: an optional `.` in `rest`,
      then as many digits as follow. */
  function TagHit(tag: string, rest: string): (h: Hit)
    ensures h.tag == tag && 1 + |tag| <= h.len <= 1 + |tag| + |rest|
    ensures AllDigits(h.digits)
  {
    var dot := if |rest| > 0 && rest[0] == '.' then 1 else 0;
    var after := rest[dot..];
    var d := SkipLeft(after, IsDigit);
    Hit(tag, 1 + |tag| + dot + d, after[..d])
  }

  /** `repl(match)`: the short tag followed by the number. */
  function Repl(h: Hit): string {
    if Short(h.tag) != "" then Short(h.tag) + h.digits else h.digits
  }

  /** `re.sub(pattern, repl, s, flags=re.IGNORECASE)`: matches are replaced
      left to right and never overlap. */
  function Sub(s: string, labels: seq<string>): string
    decreases |s|
  {
    if |s| == 0 then ""
    else
      match MatchAt(s, labels)
      case Some(h) => Repl(h) + Sub(s[h.len..], labels)
      case None => [s[0]] + Sub(s[1..], labels)
  }

  function NormalizeVersionWith(version: string, labels: seq<string>): string {
    ReplaceChar(Sub(version, labels), '-', '.')
  }

  /** `_normalize_version` with its alternatives in the order its pattern
      lists them. */
  function NormalizeVersionAsWritten(version: string): (r: string)
    ensures '-' !in r
    ensures '-' !in version ==> r == version
  {
    VersionNoDash(version, LabelsAsWritten);
    if '-' !in version then VersionPlain(version, LabelsAsWritten); NormalizeVersionWith(version, LabelsAsWritten)
    else NormalizeVersionWith(version, LabelsAsWritten)
  }

  /** `_normalize_version` with `preview` tried before `pre`: the result has
      no `-` left, and a version without `-` is already normal. */
  function NormalizeVersion(version: string): (r: string)
    ensures '-' !in r
    ensures '-' !in version ==> r == version
  {
    VersionNoDash(version, Labels);
    if '-' !in version then VersionPlain(version, Labels); NormalizeVersionWith(version, Labels)
    else NormalizeVersionWith(version, Labels)
  }

  /** The result never contains `-`. */
  lemma VersionNoDash(version: string, labels: seq<string>)
    ensures '-' !in NormalizeVersionWith(version, labels)
  {
    var r := NormalizeVersionWith(version, labels);
    assert forall i :: 0 <= i < |r| ==> r[i] != '-';
  }

  /** Without `-` nothing matches. */
  lemma {:induction false} SubPlain(s: string, labels: seq<string>)
    requires '-' !in s
    ensures Sub(s, labels) == s
    decreases |s|
  {
    if |s| > 0 {
      assert s[0] in s;
      assert forall c :: c in s[1..] ==> c in s;
      SubPlain(s[1..], labels);
    }
  }

  /** A version without `-` is already in normal form. */
  lemma VersionPlain(version: string, labels: seq<string>)
    requires '-' !in version
    ensures NormalizeVersionWith(version, labels) == version
  {
    SubPlain(version, labels);
  }

  /** Normalising twice is normalising once. */
  lemma VersionIdempotent(version: string, labels: seq<string>)
    ensures NormalizeVersionWith(NormalizeVersionWith(version, labels), labels) == NormalizeVersionWith(version, labels)
  {
    VersionNoDash(version, labels);
    VersionPlain(NormalizeVersionWith(version, labels), labels);
  }

  /** A `-`-free prefix is copied through. */
  lemma {:induction false} SubPrefix(base: string, t: string, labels: seq<string>)
    requires '-' !in base
    ensures Sub(base + t, labels) == base + Sub(t, labels)
    decreases |base|
  {
    if |base| > 0 {
      var s := base + t;
      var u := base[1..] + t;
      assert s[0] == base[0] && base[0] in base;
      assert s[1..] == u;
      assert forall c :: c in base[1..] ==> c in base;
      SubPrefix(base[1..], t, labels);
      SubHead(s, labels);
      HeadTail(base);
      Assoc([base[0]], base[1..], Sub(t, labels));
      calc {
        Sub(s, labels);
        [base[0]] + Sub(u, labels);
        [base[0]] + (base[1..] + Sub(t, labels));
        ([base[0]] + base[1..]) + Sub(t, labels);
      }
    } else {
      NoHead(base, t);
      NoHead(base, Sub(t, labels));
    }
  }

  /** A character other than `-` is copied. */
  lemma SubHead(s: string, labels: seq<string>)
    requires |s| > 0 && s[0] != '-'
    ensures Sub(s, labels) == [s[0]] + Sub(s[1..], labels)
  {
  }

  /** Lower-case ASCII letters. */
  predicate Word(s: string) {
    forall i :: 0 <= i < |s| ==> 'a' <= s[i] <= 'z'
  }

  /** Upper- or lower-case ASCII letters. */
  predicate Letters(s: string) {
    forall i :: 0 <= i < |s| ==> ('a' <= s[i] <= 'z') || ('A' <= s[i] <= 'Z')
  }

  /** No alternative is a prefix of one listed after it, so the order of the
      list cannot hide an alternative. */
  predicate PrefixFree(labels: seq<string>) {
    forall j, k :: 0 <= j < k < |labels| ==> !StartsWith(labels[k], labels[j])
  }

  lemma LabelsWords()
    ensures forall k :: 0 <= k < |Labels| ==> Word(Labels[k]) && |Labels[k]| > 0
  {
  }

  lemma LabelsPrefixFree()
    ensures PrefixFree(Labels)
  {
    forall j, k | 0 <= j < k < |Labels|
      ensures !StartsWith(Labels[k], Labels[j])
    {
      NotPrefix(Labels[k], Labels[j]);
    }
  }

  /** Two words differing in their first two letters, or a word longer than
      the other, are not prefixes of it. */
  lemma NotPrefix(a: string, b: string)
    requires |b| > 0
    requires |b| > |a| || a[0] != b[0] || (|a| >= 2 && |b| >= 2 && a[1] != b[1])
    ensures !StartsWith(a, b)
  {
    if |b| <= |a| {
      assert a[..|b|][0] == a[0];
      assert |b| >= 2 ==> a[..|b|][1] == a[1];
    }
  }

  /** The pattern of `_normalize_version` lists `pre` ahead of `preview`,
      which starts with it. */
  lemma AsWrittenNotPrefixFree()
    ensures !PrefixFree(LabelsAsWritten)
  {
    assert LabelsAsWritten[3] == "pre" && LabelsAsWritten[4] == "preview";
    assert StartsWith("preview", "pre");
  }

  /** The alternative at position `k` wins when none before it matches. */
  lemma {:induction false} FirstLabelAt(w: string, labels: seq<string>, k: nat)
    requires k < |labels| && StartsWithCI(w, labels[k])
    requires forall j :: 0 <= j < k ==> !StartsWithCI(w, labels[j])
    ensures FirstLabel(w, labels) == Some(labels[k])
    decreases k
  {
    if k > 0 {
      assert !StartsWithCI(w, labels[0]);
      assert forall j :: 0 <= j < k - 1 ==> labels[1..][j] == labels[j + 1];
      FirstLabelAt(w, labels[1..], k - 1);
    }
  }

  /** Text that goes on with neither a letter nor anything else: the
      characters a version may carry after its pre- or post-release tag. */
  predicate TagEnd(rest: string) {
    |rest| == 0 || !(('a' <= rest[0] <= 'z') || ('A' <= rest[0] <= 'Z'))
  }

  lemma LowerPrefix(w: string, n: nat)
    requires n <= |w|
    ensures Lower(w[..n]) == Lower(w)[..n]
  {
  }

  /** A lower-case word that is not a prefix of the tag does not match at the
      start of a tag that is followed by a non-letter. */
  lemma NotEarlier(tagText: string, rest: string, e: string)
    requires Letters(tagText) && TagEnd(rest) && Word(e)
    requires !StartsWith(Lower(tagText), e)
    ensures !StartsWithCI(tagText + rest, e)
  {
    var w := tagText + rest;
    var n := |tagText|;
    if |e| <= n {
      assert w[..|e|] == tagText[..|e|];
      LowerPrefix(tagText, |e|);
    } else if |e| <= |w| {
      LowerPrefix(w, |e|);
      assert w[n] == rest[0];
      assert Lower(w[..|e|])[n] == LowerChar(rest[0]);
    }
  }

  /** Every alternative is a non-empty lower-case word. */
  predicate Words(labels: seq<string>) {
    forall k :: 0 <= k < |labels| ==> Word(labels[k]) && |labels[k]| > 0
  }

  /** No alternative listed before the one at `k` is a prefix of it. */
  predicate NoEarlierPrefix(labels: seq<string>, k: nat) {
    k < |labels| && forall j :: 0 <= j < k ==> !StartsWith(labels[k], labels[j])
  }

  /** A tag whose alternative no earlier one can shadow is matched as
      itself. */
  lemma TagFirst(tagText: string, rest: string, labels: seq<string>, k: nat)
    requires Letters(tagText) && TagEnd(rest)
    requires NoEarlierPrefix(labels, k) && Words(labels)
    requires Lower(tagText) == labels[k]
    ensures FirstLabel(tagText + rest, labels) == Some(labels[k])
  {
    var w := tagText + rest;
    forall j | 0 <= j < k
      ensures !StartsWithCI(w, labels[j])
    {
      NotEarlier(tagText, rest, labels[j]);
    }
    assert w[..|tagText|] == tagText;
    FirstLabelAt(w, labels, k);
  }

  /** How `MatchAt` reads the text after the tag. */
  lemma MatchAtOf(s: string, labels: seq<string>, tag: string)
    requires |s| > 0 && s[0] == '-' && FirstLabel(s[1..], labels) == Some(tag)
    ensures 1 + |tag| <= |s|
    ensures MatchAt(s, labels) == Some(TagHit(tag, s[1 + |tag|..]))
  {
  }

  /** What may follow a tag for the whole rest to be one match: an optional
      `.` and then digits only. */
  predicate Number(rest: string) {
    AllDigits(rest) || (|rest| > 0 && rest[0] == '.' && AllDigits(rest[1..]))
  }

  /** The digits of such a rest. */
  function NumberDigits(rest: string): (r: string)
    requires Number(rest)
    ensures AllDigits(r) && (r == rest || rest == "." + r)
  {
    if |rest| > 0 && rest[0] == '.' then rest[1..] else rest
  }

  /** When no earlier alternative shadows the tag, the whole suffix
      `-tag[.]digits` is one match. */
  lemma SuffixMatch(s: string, tagText: string, rest: string, labels: seq<string>, k: nat)
    requires Letters(tagText) && NoEarlierPrefix(labels, k) && Words(labels)
    requires Lower(tagText) == labels[k]
    requires Number(rest) && s == "-" + (tagText + rest)
    ensures MatchAt(s, labels) == Some(Hit(labels[k], |s|, NumberDigits(rest)))
  {
    assert TagEnd(rest);
    TagFirst(tagText, rest, labels, k);
    assert s[1..] == tagText + rest;
    MatchAtOf(s, labels, labels[k]);
    assert s[1 + |labels[k]|..] == rest;
    NumberSpan(labels[k], rest);
  }

  /** The optional `.` and the digits after it make up the whole of such a
      rest. */
  lemma NumberSpan(tag: string, rest: string)
    requires Number(rest)
    ensures TagHit(tag, rest) == Hit(tag, 1 + |tag| + |rest|, NumberDigits(rest))
  {
    var dot := if |rest| > 0 && rest[0] == '.' then 1 else 0;
    var digits := NumberDigits(rest);
    assert rest[dot..] == digits;
    assert SkipLeft(digits, IsDigit) == |digits|;
    assert digits[..|digits|] == digits;
  }

  lemma ReplaceCharAbsent(s: string, a: char, b: char)
    requires a !in s
    ensures ReplaceChar(s, a, b) == s
  {
  }

  /** A match spanning the whole text is replaced and nothing is left. */
  lemma SubWhole(s: string, labels: seq<string>, h: Hit)
    requires MatchAt(s, labels) == Some(h) && h.len == |s|
    ensures Sub(s, labels) == Repl(h)
  {
    assert s[h.len..] == "";
    NoTail(Repl(h), Sub(s[h.len..], labels));
  }

  /** The short spelling of a word is a word. */
  lemma ShortWord(tag: string)
    requires Word(tag)
    ensures Word(Short(tag))
  {
  }

  /** `Repl` writes no `-`. */
  lemma ReplNoDash(h: Hit)
    requires AllDigits(h.digits) && Word(h.tag)
    ensures '-' !in Repl(h)
  {
    ShortWord(h.tag);
    var sh := Short(h.tag);
    assert forall i :: 0 <= i < |sh| ==> sh[i] != '-';
    assert forall i :: 0 <= i < |h.digits| ==> h.digits[i] != '-';
  }

  /** The suffix `-tag[.]digits` takes the tag's PEP 440 spelling under any
      list of alternatives in which no earlier one shadows the tag. */
  lemma VersionSuffixWith(base: string, tagText: string, rest: string, labels: seq<string>, k: nat)
    requires '-' !in base
    requires Letters(tagText) && Words(labels) && NoEarlierPrefix(labels, k) && Lower(tagText) == labels[k]
    requires Number(rest)
    ensures NormalizeVersionWith(base + ("-" + (tagText + rest)), labels) ==
      base + (if Short(labels[k]) == "" then NumberDigits(rest) else Short(labels[k]) + NumberDigits(rest))
  {
    var s := "-" + (tagText + rest);
    SuffixMatch(s, tagText, rest, labels, k);
    var h := Hit(labels[k], |s|, NumberDigits(rest));
    SubWhole(s, labels, h);
    SubPrefix(base, s, labels);
    ReplNoDash(h);
    assert '-' !in base + Repl(h);
    ReplaceCharAbsent(base + Repl(h), '-', '.');
  }

  /** A pre-, post- or development-release suffix takes its PEP 440 spelling
      whatever the case of its tag and whether a `.` precedes the number;
      `final` and `ga` leave only the number. */
  lemma VersionSuffix(base: string, tagText: string, rest: string)
    requires '-' !in base
    requires Letters(tagText) && Lower(tagText) in Labels
    requires Number(rest)
    ensures NormalizeVersion(base + ("-" + (tagText + rest))) ==
      base + (if Short(Lower(tagText)) == "" then NumberDigits(rest)
              else Short(Lower(tagText)) + NumberDigits(rest))
  {
    var k :| 0 <= k < |Labels| && Labels[k] == Lower(tagText);
    LabelsPrefixFree();
    LabelsWords();
    VersionSuffixWith(base, tagText, rest, Labels, k);
  }

  lemma LabelsAsWrittenWords()
    ensures Words(LabelsAsWritten)
  {
  }

  /** In the order `_normalize_version`'s pattern lists them, only `preview`
      has an earlier alternative, `pre`, that is a prefix of it. */
  lemma AsWrittenNoEarlierPrefix(k: nat)
    requires k < |LabelsAsWritten| && LabelsAsWritten[k] != "preview"
    ensures NoEarlierPrefix(LabelsAsWritten, k)
  {
    forall j | 0 <= j < k
      ensures !StartsWith(LabelsAsWritten[k], LabelsAsWritten[j])
    {
      NotPrefix(LabelsAsWritten[k], LabelsAsWritten[j]);
    }
  }

  /** The pattern as written spells every tag but `preview` the PEP 440
      way, in any case and with or without a `.` before the number. */
  lemma VersionSuffixAsWritten(base: string, tagText: string, rest: string)
    requires '-' !in base
    requires Letters(tagText) && Lower(tagText) in LabelsAsWritten && Lower(tagText) != "preview"
    requires Number(rest)
    ensures NormalizeVersionAsWritten(base + ("-" + (tagText + rest))) ==
      base + (if Short(Lower(tagText)) == "" then NumberDigits(rest)
              else Short(Lower(tagText)) + NumberDigits(rest))
  {
    var k :| 0 <= k < |LabelsAsWritten| && LabelsAsWritten[k] == Lower(tagText);
    AsWrittenNoEarlierPrefix(k);
    LabelsAsWrittenWords();
    VersionSuffixWith(base, tagText, rest, LabelsAsWritten, k);
  }

  /** As written, `pre` is the first alternative to match `preview...`. */
  lemma PreFirst(w: string)
    requires StartsWith(w, "preview")
    ensures FirstLabel(w, LabelsAsWritten) == Some("pre")
  {
    assert w[..3] == "pre" by {
      assert w[..7][..3] == w[..3];
    }
    LowerPrefix(w, 2);
    assert Lower(w[..2])[0] == 'p';
    assert LabelsAsWritten[3] == "pre";
    FirstLabelAt(w, LabelsAsWritten, 3);
  }

  /** When `pre` is taken for `-preview`, the match ends after `pre`, so no
      digits are taken and `view` is left behind. */
  lemma PreviewMatch(s: string, labels: seq<string>)
    requires StartsWith(s, "-preview") && FirstLabel(s[1..], labels) == Some("pre")
    ensures MatchAt(s, labels) == Some(Hit("pre", 4, ""))
  {
    MatchAtOf(s, labels, "pre");
    assert s[4] == s[..8][4] == 'v';
    assert s[4..][0] == 'v';
  }

  lemma PreviewAsWritten(base: string, digits: string)
    requires '-' !in base && AllDigits(digits)
    ensures NormalizeVersionAsWritten(base + ("-pre" + ("view" + digits))) == base + ("rc" + ("view" + digits))
  {
    var rest := "view" + digits;
    PlainTail("view", digits);
    PreviewFirst("-pre" + rest, rest);
    PreviewWith(base, rest, LabelsAsWritten);
  }

  /** Any list that takes `pre` for `preview` spells it `rcview`. */
  lemma PreviewWith(base: string, rest: string, labels: seq<string>)
    requires '-' !in base && StartsWith(rest, "view") && '-' !in rest
    requires FirstLabel(("-pre" + rest)[1..], labels) == Some("pre")
    ensures NormalizeVersionWith(base + ("-pre" + rest), labels) == base + ("rc" + rest)
  {
    var s := "-pre" + rest;
    PreviewSub(s, rest, labels);
    SubPrefix(base, s, labels);
    PlainTail(base, "rc" + rest);
    ReplaceCharAbsent(base + ("rc" + rest), '-', '.');
  }

  lemma PreviewFirst(s: string, rest: string)
    requires s == "-pre" + rest && StartsWith(rest, "view")
    ensures FirstLabel(s[1..], LabelsAsWritten) == Some("pre")
  {
    assert s[..8] == "-preview";
    assert s[1..][..7] == s[..8][1..];
    PreFirst(s[1..]);
  }

  lemma PreviewSub(s: string, rest: string, labels: seq<string>)
    requires s == "-pre" + rest && StartsWith(rest, "view") && '-' !in rest
    requires FirstLabel(s[1..], labels) == Some("pre")
    ensures Sub(s, labels) == "rc" + rest
  {
    assert s[..8] == "-preview";
    PreviewMatch(s, labels);
    assert s[4..] == rest;
    SubPlain(rest, labels);
    SubAt(s, labels, Hit("pre", 4, ""));
    ReplPre();
  }

  /** One match, then the rest. */
  lemma SubAt(s: string, labels: seq<string>, h: Hit)
    requires MatchAt(s, labels) == Some(h)
    ensures Sub(s, labels) == Repl(h) + Sub(s[h.len..], labels)
  {
  }

  lemma ReplPre()
    ensures Repl(Hit("pre", 4, "")) == "rc"
  {
    assert Short("pre") == "rc";
  }

  /** Digits after a `-`-free head keep the text `-`-free. */
  lemma PlainTail(a: string, b: string)
    requires '-' !in a && forall i :: 0 <= i < |b| ==> b[i] != '-'
    ensures '-' !in a + b
  {
    var s := a + b;
    forall i | 0 <= i < |s|
      ensures s[i] != '-'
    {
      if i < |a| {
        assert s[i] == a[i];
      } else {
        assert s[i] == b[i - |a|];
      }
    }
  }

  /** The corrected order spells `-preview` as `rc`. */
  lemma PreviewCorrected(base: string, digits: string)
    requires '-' !in base && AllDigits(digits)
    ensures NormalizeVersion(base + ("-" + ("preview" + digits))) == base + ("rc" + digits)
  {
    assert Lower("preview") == "preview" && Labels[3] == "preview";
    assert Number(digits);
    VersionSuffix(base, "preview", digits);
  }

  /** The discrepancy on a concrete version. */
  lemma PreviewExample(v: string)
    requires v == "1.0-preview1"
    ensures NormalizeVersionAsWritten(v) == "1.0rcview1"
    ensures NormalizeVersion(v) == "1.0rc1"
  {
    PreviewSpelling(v);
    PreviewAsWritten("1.0", "1");
    PreviewCorrected("1.0", "1");
  }

  /** `1.0-preview1` and its two normal forms, spelt as the lemmas above
      take them apart. */
  lemma PreviewSpelling(v: string)
    requires v == "1.0-preview1"
    ensures '-' !in "1.0" && AllDigits("1")
    ensures v == "1.0" + ("-pre" + ("view" + "1"))
    ensures v == "1.0" + ("-" + ("preview" + "1"))
    ensures "1.0" + ("rc" + ("view" + "1")) == "1.0rcview1"
    ensures "1.0" + ("rc" + "1") == "1.0rc1"
  {
  }
}
