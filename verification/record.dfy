/** The RECORD lines of the wheel the build backend writes: each file's path,
    the URL-safe base64 form of its SHA-256 digest without padding, and its
    size. The digest function is a parameter; base64 follows section 5 of
    RFC 4648. */
module WheelRecord {
  import opened Base
  import opened Text

  // ---------------------------------------------------------------------------
  // The URL-safe alphabet

  /** The character of a six-bit value. */
  function Sextet(v: nat): char
    requires v < 64
  {
    if v < 26 then ('A' as int + v) as char
    else if v < 52 then ('a' as int + (v - 26)) as char
    else if v < 62 then ('0' as int + (v - 52)) as char
    else if v == 62 then '-'
    else '_'
  }

  /** The six-bit value of an alphabet character, if it is one. */
  function SextetValue(c: char): (r: Option<nat>)
    ensures r.Some? ==> r.value < 64 && Sextet(r.value) == c
  {
    if 'A' <= c <= 'Z' then Some(c as int - 'A' as int)
    else if 'a' <= c <= 'z' then Some(c as int - 'a' as int + 26)
    else if '0' <= c <= '9' then Some(c as int - '0' as int + 52)
    else if c == '-' then Some(62)
    else if c == '_' then Some(63)
    else None
  }

  /** Every value has exactly one character, and it reads back. */
  lemma SextetRoundTrip(v: nat)
    requires v < 64
    ensures SextetValue(Sextet(v)) == Some(v)
  {
  }

  predicate InAlphabet(c: char) {
    SextetValue(c).Some?
  }

  /** Neither the padding character nor the RECORD separator is a digit of
      the alphabet. */
  lemma AlphabetExcludes(c: char)
    requires InAlphabet(c)
    ensures c != '=' && c != ',' && c != '+' && c != '/'
  {
  }

  // ---------------------------------------------------------------------------
  // Groups

  /** The sextets of one to three bytes, most significant bits first; a
      short group is filled with zero bits to a whole sextet. */
  function Sextets(g: seq<Byte>): (r: seq<nat>)
    requires 1 <= |g| <= 3
    ensures |r| == |g| + 1 && forall i :: 0 <= i < |r| ==> r[i] < 64
  {
    var a := g[0];
    var b := if |g| > 1 then g[1] else 0;
    var c := if |g| > 2 then g[2] else 0;
    [a / 4, (a % 4) * 16 + b / 16, (b % 16) * 4 + c / 64, c % 64][..|g| + 1]
  }

  /** The bytes of two to four sextets; the bits past the last whole byte are
      dropped. */
  function Bytes(vs: seq<nat>): (r: seq<Byte>)
    requires 2 <= |vs| <= 4 && forall i :: 0 <= i < |vs| ==> vs[i] < 64
    ensures |r| == |vs| - 1
  {
    var v2 := if |vs| > 2 then vs[2] else 0;
    var v3 := if |vs| > 3 then vs[3] else 0;
    var all: seq<Byte> := [vs[0] * 4 + vs[1] / 16, (vs[1] % 16) * 16 + v2 / 4, (v2 % 4) * 64 + v3];
    all[..|vs| - 1]
  }

  lemma FirstByte(a: Byte, b: Byte)
    ensures (a / 4) * 4 + ((a % 4) * 16 + b / 16) / 16 == a
  {
  }

  lemma SecondByte(b: Byte, c: Byte)
    ensures (((b / 16) % 16) * 16 + ((b % 16) * 4 + c / 64) / 4) == b
  {
  }

  lemma ThirdByte(b: Byte, c: Byte)
    ensures (((b % 16) * 4 + c / 64) % 4) * 64 + c % 64 == c
  {
  }

  /** A group's sextets give its bytes back. */
  lemma GroupRoundTrip(g: seq<Byte>)
    requires 1 <= |g| <= 3
    ensures Bytes(Sextets(g)) == g
  {
    var a := g[0];
    var b := if |g| > 1 then g[1] else 0;
    var c := if |g| > 2 then g[2] else 0;
    var vs := Sextets(g);
    var r := Bytes(vs);
    FirstByte(a, b);
    assert r[0] == a;
    if |g| > 1 {
      assert ((a % 4) * 16 + b / 16) % 16 == b / 16;
      SecondByte(b, c);
      assert r[1] == b;
    }
    if |g| > 2 {
      ThirdByte(b, c);
      assert r[2] == c;
    }
  }

  // ---------------------------------------------------------------------------
  // Encoding

  function Chars(vs: seq<nat>): (s: string)
    requires forall i :: 0 <= i < |vs| ==> vs[i] < 64
    ensures |s| == |vs| && forall i :: 0 <= i < |s| ==> InAlphabet(s[i])
  {
    seq(|vs|, i requires 0 <= i < |vs| => SextetRoundTrip(vs[i]); Sextet(vs[i]))
  }

  /** The values of a string of alphabet characters; `None` at the first
      character outside the alphabet. */
  function Values(s: string): (r: Option<seq<nat>>)
    ensures r.Some? ==> |r.value| == |s| && forall i :: 0 <= i < |s| ==> r.value[i] < 64
    decreases |s|
  {
    if |s| == 0 then Some([])
    else
      var v :- SextetValue(s[0]);
      var vs :- Values(s[1..]);
      Some([v] + vs)
  }

  /** The characters of sextets read back as those sextets. */
  lemma {:induction false} CharsRoundTrip(vs: seq<nat>)
    requires forall i :: 0 <= i < |vs| ==> vs[i] < 64
    ensures Values(Chars(vs)) == Some(vs)
    decreases |vs|
  {
    if |vs| > 0 {
      var s := Chars(vs);
      SextetRoundTrip(vs[0]);
      assert s[1..] == Chars(vs[1..]);
      CharsRoundTrip(vs[1..]);
      HeadTail(vs);
    }
  }

  /** Size of the first group of `n` remaining bytes. */
  function GroupSize(n: nat): nat {
    if n < 3 then n else 3
  }

  /** `base64.urlsafe_b64encode(d)` with the trailing `=` stripped. */
  function Unpadded(d: seq<Byte>): (r: string)
    ensures forall i :: 0 <= i < |r| ==> InAlphabet(r[i])
    decreases |d|
  {
    if |d| == 0 then ""
    else
      var n := GroupSize(|d|);
      Chars(Sextets(d[..n])) + Unpadded(d[n..])
  }

  /** The `=` that pad the last group to four characters. */
  function Padding(n: nat): string {
    if n % 3 == 1 then "==" else if n % 3 == 2 then "=" else ""
  }

  /** `base64.urlsafe_b64encode`: every group of three bytes as four
      characters, a last short group padded with `=` to four. */
  function Encode(d: seq<Byte>): (r: string)
    ensures |r| % 4 == 0
    decreases |d|
  {
    if |d| == 0 then ""
    else if |d| < 3 then Chars(Sextets(d)) + Padding(|d|)
    else Chars(Sextets(d[..3])) + Encode(d[3..])
  }

  /** The padded encoding is the unpadded one followed by the padding. */
  lemma {:induction false} EncodeUnpadded(d: seq<Byte>)
    ensures Encode(d) == Unpadded(d) + Padding(|d|)
    decreases |d|
  {
    if |d| == 0 {
    } else if |d| < 3 {
      assert d[..|d|] == d;
      assert d[|d|..] == [];
      NoTail(Chars(Sextets(d)), Unpadded(d[|d|..]));
    } else {
      EncodeUnpadded(d[3..]);
      assert Padding(|d[3..]|) == Padding(|d|);
      Assoc(Chars(Sextets(d[..3])), Unpadded(d[3..]), Padding(|d|));
    }
  }

  /** Four characters for every three bytes, rounded up. */
  lemma {:induction false} UnpaddedLength(d: seq<Byte>)
    ensures |Unpadded(d)| == (4 * |d| + 2) / 3
    decreases |d|
  {
    if |d| > 0 {
      UnpaddedLength(d[GroupSize(|d|)..]);
    }
  }

  /** Stripping the `=` of the padded encoding leaves the unpadded one. */
  lemma StripPadding(d: seq<Byte>)
    ensures RStripChar(Encode(d), '=') == Unpadded(d)
  {
    EncodeUnpadded(d);
    var x := Unpadded(d);
    forall i | 0 <= i < |x|
      ensures x[i] != '='
    {
      AlphabetExcludes(x[i]);
    }
    StripAll(x, Padding(|d|), '=');
  }

  /** `rstrip(c)` of a text without `c` followed only by `c`. */
  lemma StripAll(x: string, pad: string, c: char)
    requires forall i :: 0 <= i < |x| ==> x[i] != c
    requires forall i :: 0 <= i < |pad| ==> pad[i] == c
    ensures RStripChar(x + pad, c) == x
  {
    var s := x + pad;
    assert forall i :: 0 <= i < |x| ==> s[i] == x[i];
    assert forall i :: |x| <= i < |s| ==> s[i] == pad[i - |x|];
    SkipRightAt(s, y => y == c, |x|);
    assert s[..|x|] == x;
  }

  // ---------------------------------------------------------------------------
  // Decoding, the partner of the encoding

  /** Reads unpadded URL-safe base64: four characters per three bytes, a last
      group of two or three characters for one or two bytes. A lone last
      character or a character outside the alphabet is an error. */
  function Decode(s: string): (r: Option<seq<Byte>>)
    decreases |s|
  {
    if |s| == 0 then Some([])
    else if |s| == 1 then None
    else
      var n := if |s| < 4 then |s| else 4;
      var vs :- Values(s[..n]);
      var rest :- Decode(s[n..]);
      Some(Bytes(vs) + rest)
  }

  /** Decoding the unpadded encoding gives the bytes back. */
  lemma {:induction false} DecodeUnpadded(d: seq<Byte>)
    ensures Decode(Unpadded(d)) == Some(d)
    decreases |d|
  {
    if |d| > 0 {
      var n := GroupSize(|d|);
      var g := d[..n];
      var head := Chars(Sextets(g));
      var tail := Unpadded(d[n..]);
      var s := Unpadded(d);
      assert s == head + tail;
      DecodeUnpadded(d[n..]);
      CharsRoundTrip(Sextets(g));
      GroupRoundTrip(g);
      if n == 3 {
        assert s[..4] == head && s[4..] == tail;
      } else {
        assert d[n..] == [];
        assert tail == "";
        NoTail(head, tail);
        assert s[..|s|] == head && s[|s|..] == tail;
      }
      HeadTake(d, n);
    }
  }

  lemma HeadTake(d: seq<Byte>, n: nat)
    requires n <= |d|
    ensures d[..n] + d[n..] == d
  {
  }

  /** Different digests never share an encoding. */
  lemma UnpaddedInjective(a: seq<Byte>, b: seq<Byte>)
    requires Unpadded(a) == Unpadded(b)
    ensures a == b
  {
    DecodeUnpadded(a);
    DecodeUnpadded(b);
  }

  // ---------------------------------------------------------------------------
  // _hash_record and _build_record_line

  /** `_hash_record`: the `sha256=` digest field and the size of the data. */
  function HashRecord(data: seq<Byte>, sha256: seq<Byte> -> seq<Byte>): (r: (string, nat))
    ensures r.1 == |data|
  {
    ("sha256=" + RStripChar(Encode(sha256(data)), '='), |data|)
  }

  /** The digest field holds the unpadded encoding of the digest, which
      decodes back to it; a 32-byte digest takes 43 characters. */
  lemma HashRecordDigest(data: seq<Byte>, sha256: seq<Byte> -> seq<Byte>)
    ensures var field := HashRecord(data, sha256).0;
      |field| >= 7 && field[..7] == "sha256=" && field[7..] == Unpadded(sha256(data))
      && Decode(field[7..]) == Some(sha256(data))
      && (|sha256(data)| == 32 ==> |field| == 50)
  {
    var h := sha256(data);
    StripPadding(h);
    DecodeUnpadded(h);
    UnpaddedLength(h);
    var field := HashRecord(data, sha256).0;
    assert field == "sha256=" + Unpadded(h);
    assert field[..7] == "sha256=" && field[7..] == Unpadded(h);
  }

  /** `_build_record_line`: `path,digest,size`. Every line the backend
      writes reads back as its path, its digest field and its size, whatever
      the path contains. */
  function RecordLine(path: string, data: seq<Byte>, sha256: seq<Byte> -> seq<Byte>): (r: string)
    ensures ParseRecordLine(r) == Some(Row(path, HashRecord(data, sha256).0, |data|))
  {
    var (digest, size) := HashRecord(data, sha256);
    HashRecordDigest(data, sha256);
    NoComma(digest);
    RecordTextRoundTrip(path, digest, size);
    path + "," + digest + "," + NatToString(size)
  }

  /** The text after the last `sep` and before it, or `None` without `sep`. */
  function SplitLast(s: string, sep: char): (r: Option<(string, string)>)
    ensures r.None? ==> sep !in s
    ensures r.Some? ==> s == r.value.0 + [sep] + r.value.1 && sep !in r.value.1
  {
    var k := SkipRight(s, c => c != sep);
    if k == 0 then
      assert forall i :: 0 <= i < |s| ==> s[i] != sep;
      None
    else
      assert s == s[..k - 1] + [sep] + s[k..];
      assert forall i :: 0 <= i < |s[k..]| ==> s[k..][i] == s[k + i];
      Some((s[..k - 1], s[k..]))
  }

  /** The split is at the one `sep` that the text after it lacks. */
  lemma SplitLastUnique(s: string, sep: char, a: string, b: string)
    requires s == a + [sep] + b && sep !in b
    ensures SplitLast(s, sep) == Some((a, b))
  {
    assert s[|a|] == sep;
    assert forall i :: |a| < i < |s| ==> s[i] == b[i - |a| - 1] && s[i] in b;
    SkipRightAt(s, c => c != sep, |a| + 1);
    assert s[..|a|] == a && s[|a| + 1..] == b;
  }

  datatype Row = Row(path: string, digest: string, size: nat)

  /** Reads a RECORD line from the right, so that a path may hold commas:
      a row read back is the path, a comma-free digest field and a size,
      joined by commas around the size's digits. */
  function ParseRecordLine(line: string): (r: Option<Row>)
    ensures r.Some? ==> ',' !in r.value.digest
    ensures r.Some? ==> exists t :: line == r.value.path + "," + r.value.digest + "," + t && ParseNat(t) == Some(r.value.size)
  {
    var (head, sizeText) :- SplitLast(line, ',');
    var (path, digest) :- SplitLast(head, ',');
    var size :- ParseNat(sizeText);
    Some(Row(path, digest, size))
  }

  /** A line made of any path, a comma-free digest field and a size reads
      back as those three. */
  lemma RecordTextRoundTrip(path: string, digest: string, size: nat)
    requires ',' !in digest
    ensures ParseRecordLine(path + "," + digest + "," + NatToString(size)) == Some(Row(path, digest, size))
  {
    var sizeText := NatToString(size);
    assert ',' !in sizeText by {
      assert forall i :: 0 <= i < |sizeText| ==> IsDigit(sizeText[i]);
    }
    var head := path + "," + digest;
    SplitLastUnique(head + "," + sizeText, ',', head, sizeText);
    SplitLastUnique(head, ',', path, digest);
    NatRoundTrip(size);
  }

  /** A digest field has no comma. */
  lemma NoComma(field: string)
    requires |field| >= 7 && field[..7] == "sha256=" && forall i :: 7 <= i < |field| ==> InAlphabet(field[i])
    ensures ',' !in field
  {
    forall i | 0 <= i < |field|
      ensures field[i] != ','
    {
      if i < 7 {
        assert field[i] == field[..7][i];
      } else {
        AlphabetExcludes(field[i]);
      }
    }
  }
}
