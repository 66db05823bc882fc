/** The int8 `.npy` files of the knowledge-base promotion: a row-major int8
    payload behind a version 1.0 header whose length is padded so the payload
    starts on a 16-byte boundary. Files are modelled as byte sequences. */
module Npy {
  import opened Base
  import opened Text

  /** `b"\x93NUMPY"`. */
  const Magic: seq<Byte> := [0x93, 0x4e, 0x55, 0x4d, 0x50, 0x59]

  /** Magic, two version bytes and the two-byte header length. */
  const PrefixLen: nat := 10

  /** Two's complement byte of a signed char, as `array("b").tobytes()`. */
  function Int8ToByte(v: int): Byte
    requires -128 <= v <= 127
  {
    if v < 0 then v + 256 else v
  }

  /** The signed char of a byte, as `array("b").frombytes()`. */
  function ByteToInt8(b: Byte): (v: int)
    ensures -128 <= v <= 127
  {
    if b >= 128 then b - 256 else b
  }

  predicate AllInt8(vs: seq<int>) {
    forall i :: 0 <= i < |vs| ==> -128 <= vs[i] <= 127
  }

  function ToBytes(vs: seq<int>): (bs: seq<Byte>)
    requires AllInt8(vs)
    ensures |bs| == |vs|
    ensures forall i :: 0 <= i < |vs| ==> bs[i] == Int8ToByte(vs[i])
  {
    seq(|vs|, i requires 0 <= i < |vs| => Int8ToByte(vs[i]))
  }

  function FromBytes(bs: seq<Byte>): (vs: seq<int>)
    ensures |vs| == |bs| && AllInt8(vs)
    ensures forall i :: 0 <= i < |bs| ==> vs[i] == ByteToInt8(bs[i])
  {
    seq(|bs|, i requires 0 <= i < |bs| => ByteToInt8(bs[i]))
  }

  lemma BytesRoundTrip(vs: seq<int>)
    requires AllInt8(vs)
    ensures FromBytes(ToBytes(vs)) == vs
  {
  }

  /** `_serialize_int8_matrix`: the rows concatenated, one byte per value; a
      value outside the signed-char range raises OverflowError. */
  function SerializeInt8(rows: seq<seq<int>>): (r: Result<seq<Byte>>)
    ensures r.Ok? <==> AllInt8(Flatten(rows))
    ensures r.Ok? ==> |r.value| == |Flatten(rows)| && FromBytes(r.value) == Flatten(rows)
    ensures r.Err? ==> r.error.kind == OverflowError
  {
    var flat := Flatten(rows);
    if AllInt8(flat) then
      BytesRoundTrip(flat);
      Ok(ToBytes(flat))
    else Raise(OverflowError, "signed char is out of range")
  }

  // ---------------------------------------------------------------------------
  // Header

  const DescrField := "{'descr': '|i1', "
  const OrderField := "'fortran_order': False, "
  const ShapeOpen := "'shape': ("
  const DictHead := DescrField + OrderField + ShapeOpen
  const DictTail := ")}"

  /** `str({"descr": "|i1", "fortran_order": False, "shape": (rows, cols)})`. */
  function HeaderText(rows: nat, cols: nat): (t: string)
    ensures StartsWith(t, DictHead) && |t| >= |DictHead| + |DictTail|
    ensures t[0] == '{' && t[|t| - 1] == '}'
  {
    DictHead + (NatToString(rows) + ", " + NatToString(cols)) + DictTail
  }

  predicate IsLatin1(s: string) {
    forall i :: 0 <= i < |s| ==> s[i] as int < 256
  }

  function Latin1Encode(s: string): (bs: seq<Byte>)
    requires IsLatin1(s)
    ensures |bs| == |s|
    ensures forall i :: 0 <= i < |s| ==> bs[i] == s[i] as int
  {
    seq(|s|, i requires 0 <= i < |s| => s[i] as int)
  }

  function Latin1Decode(bs: seq<Byte>): (s: string)
    ensures |s| == |bs|
    ensures forall i :: 0 <= i < |bs| ==> s[i] as int == bs[i]
  {
    seq(|bs|, i requires 0 <= i < |bs| => bs[i] as char)
  }

  lemma Latin1RoundTrip(s: string)
    requires IsLatin1(s)
    ensures Latin1Decode(Latin1Encode(s)) == s
  {
    var d := Latin1Decode(Latin1Encode(s));
    assert forall i :: 0 <= i < |s| ==> d[i] as int == s[i] as int;
  }

  lemma HeaderIsLatin1(rows: nat, cols: nat)
    ensures IsLatin1(HeaderText(rows, cols))
  {
    var a := NatToString(rows);
    var b := NatToString(cols);
    assert IsLatin1(DescrField) && IsLatin1(OrderField) && IsLatin1(ShapeOpen);
    assert IsLatin1(", ") && IsLatin1(DictTail);
    assert IsLatin1(a) && IsLatin1(b);
    AppendLatin1(DescrField, OrderField);
    AppendLatin1(DescrField + OrderField, ShapeOpen);
    AppendLatin1(a, ", ");
    AppendLatin1(a + ", ", b);
    AppendLatin1(DictHead, a + ", " + b);
    AppendLatin1(DictHead + (a + ", " + b), DictTail);
  }

  lemma AppendLatin1(a: string, b: string)
    requires IsLatin1(a) && IsLatin1(b)
    ensures IsLatin1(a + b)
  {
    forall i | 0 <= i < |a + b|
      ensures (a + b)[i] as int < 256
    {
      if i >= |a| {
        assert (a + b)[i] == b[i - |a|];
      }
    }
  }

  /** Spaces added so that the prefix, header and newline fill whole 16-byte
      blocks. */
  function PadFor(headerLen: nat): (pad: nat)
    ensures pad < 16 && (PrefixLen + headerLen + pad + 1) % 16 == 0
  {
    PadToBlock(PrefixLen + headerLen + 1);
    (16 - ((PrefixLen + headerLen + 1) % 16)) % 16
  }

  lemma PadToBlock(x: nat)
    ensures (x + (16 - x % 16) % 16) % 16 == 0
  {
    var q, r := x / 16, x % 16;
    assert x == 16 * q + r;
    if r == 0 {
      assert (16 - r) % 16 == 0;
    } else {
      assert (16 - r) % 16 == 16 - r;
      assert x + (16 - r) == 16 * (q + 1);
    }
  }

  /** The header block: the dict text, the padding spaces and a newline. */
  function HeaderBlock(rows: nat, cols: nat): (block: seq<Byte>)
    ensures (PrefixLen + |block|) % 16 == 0
  {
    var text := HeaderText(rows, cols);
    HeaderIsLatin1(rows, cols);
    var hb := Latin1Encode(text);
    hb + seq(PadFor(|hb|), _ => 0x20) + [0x0a]
  }

  /** `struct.pack("<H", n)`. */
  function LE16(n: nat): (bs: seq<Byte>)
    requires n < 0x10000
    ensures |bs| == 2
  {
    [n % 256, n / 256]
  }

  /** `_write_int8_npy`: the bytes of the file written for `data`. The shape
      comes from the first row. */
  function WriteNpy(data: seq<seq<int>>): (r: Result<seq<Byte>>)
    ensures r.Err? <==> |HeaderBlock(|data|, if |data| > 0 then |data[0]| else 0)| >= 0x10000
                        || !AllInt8(Flatten(data))
    ensures r.Err? ==>
      r.error.kind == (if |HeaderBlock(|data|, if |data| > 0 then |data[0]| else 0)| >= 0x10000 then StructError else OverflowError)
  {
    var cols := if |data| > 0 then |data[0]| else 0;
    var block := HeaderBlock(|data|, cols);
    if |block| >= 0x10000 then Raise(StructError, "'H' format requires 0 <= number <= 65535")
    else
      var payload :- SerializeInt8(data);
      Ok(Magic + [1, 0] + LE16(|block|) + block + payload)
  }

  // ---------------------------------------------------------------------------
  // Reading

  /** `fh.read(n)`: at most `n` bytes. */
  function Take(bs: seq<Byte>, n: nat): (r: seq<Byte>)
    ensures |r| <= n && |r| <= |bs| && r == bs[..|r|]
    ensures |bs| >= n ==> |r| == n
  {
    if |bs| <= n then bs else bs[..n]
  }

  /** `struct.unpack("<H"|"<I", fh.read(width))`: little-endian, and a short
      read is a struct error. */
  function ReadLE(bs: seq<Byte>, width: nat): (r: Result<nat>)
    ensures r.Err? <==> |bs| < width
  {
    if |bs| < width then Raise(StructError, "unpack requires a buffer of the format's size")
    else Ok(LEValue(bs[..width]))
  }

  function LEValue(bs: seq<Byte>): nat {
    if |bs| == 0 then 0 else bs[0] + 256 * LEValue(bs[1..])
  }

  /** `struct.unpack("<H", struct.pack("<H", n)) == (n,)`. */
  lemma LE16RoundTrip(n: nat)
    requires n < 0x10000
    ensures LEValue(LE16(n)) == n
  {
    var bs := LE16(n);
    assert bs[1..][1..] == [];
    assert LEValue(bs[1..]) == n / 256;
  }

  /** The shape tuple of a header in the writer's layout: `()`, `(r,)` or
      `(r, c)`, numbers in Python's decimal form. */
  function ParseHeader(text: string): (shape: Option<seq<nat>>)
    ensures shape.Some? ==> |shape.value| <= 2
  {
    if !StartsWith(text, DictHead) || |text| < |DictHead| + |DictTail|
       || text[|text| - |DictTail|..] != DictTail then None
    else
      var m := text[|DictHead|..|text| - |DictTail|];
      if |m| == 0 then Some([])
      else if m[|m| - 1] == ',' then
        match ParseNat(m[..|m| - 1])
        case Some(r) => Some([r])
        case None => None
      else
        var parts := Partition(m, ',');
        if !parts.1 || |parts.2| == 0 || parts.2[0] != ' ' then None
        else
          match (ParseNat(parts.0), ParseNat(parts.2[1..]))
          case (Some(r), Some(c)) => Some([r, c])
          case _ => None
  }

  /** Consecutive runs of `cols` values, `rows` of them. */
  function Chunk(buf: seq<int>, rows: nat, cols: nat): (r: seq<seq<int>>)
    requires |buf| == rows * cols
    ensures |r| == rows
    decreases rows
  {
    if rows == 0 then []
    else
      assert |buf| - cols == (rows - 1) * cols;
      Chunk(buf[..|buf| - cols], rows - 1, cols) + [buf[|buf| - cols..]]
  }

  /** The chunks have `cols` values each and concatenate back to the buffer. */
  lemma {:induction false} ChunkSpec(buf: seq<int>, rows: nat, cols: nat)
    requires |buf| == rows * cols
    ensures forall i :: 0 <= i < rows ==> |Chunk(buf, rows, cols)[i]| == cols
    ensures Flatten(Chunk(buf, rows, cols)) == buf
    decreases rows
  {
    if rows > 0 {
      assert |buf| - cols == (rows - 1) * cols;
      var init := buf[..|buf| - cols];
      ChunkSpec(init, rows - 1, cols);
      var c := Chunk(buf, rows, cols);
      assert c[..rows - 1] == Chunk(init, rows - 1, cols);
      assert Flatten(c) == Flatten(c[..rows - 1]) + c[rows - 1];
      assert init + buf[|buf| - cols..] == buf;
    }
  }

  /** `_read_int8_npy` on the bytes of a file. Any header that is not in the
      writer's layout fails as `ast.literal_eval` would on it or on what it
      yields. */
  function ReadNpy(bs: seq<Byte>): (r: Result<seq<seq<int>>>)
    ensures Take(bs, 6) != Magic ==> r == Raise(ValueError, "invalid npy magic header")
    ensures Take(bs, 6) == Magic && |bs| < 8 ==> r == Raise(ValueError, "invalid npy version")
  {
    if Take(bs, 6) != Magic then Raise(ValueError, "invalid npy magic header")
    else
      var afterMagic := PyDrop(bs, 6);
      var version := Take(afterMagic, 2);
      if |version| != 2 then Raise(ValueError, "invalid npy version")
      else ReadBody(PyDrop(afterMagic, 2), version[0])
  }

  /** The rest of the file after the version bytes: the header length (two
      bytes for major version 1, four otherwise), the header, the payload. */
  function ReadBody(bs: seq<Byte>, major: Byte): (r: Result<seq<seq<int>>>)
  {
    var width := if major == 1 then 2 else 4;
    var headerLen :- ReadLE(bs, width);
    var rest := PyDrop(bs, width);
    match ParseHeader(Strip(Latin1Decode(Take(rest, headerLen))))
    case None => Raise(ValueError, "malformed npy header")
    case Some(shape) => Reshape(shape, FromBytes(PyDrop(rest, headerLen)))
  }

  /** The payload cut into rows of the header's shape: no dimensions or a
      zero dimension give no rows, one dimension gives rows of one value. */
  function Reshape(shape: seq<nat>, buf: seq<int>): (r: Result<seq<seq<int>>>)
    requires |shape| <= 2
    ensures |shape| == 0 ==> r == Ok([])
    ensures r.Err? <==> |shape| > 0 && shape[0] > 0 && (|shape| == 1 || shape[1] > 0)
                        && |buf| != shape[0] * (if |shape| == 1 then 1 else shape[1])
    ensures r.Ok? && |shape| > 0 && |r.value| > 0 ==>
      |r.value| == shape[0] && Flatten(r.value) == buf
  {
    if |shape| == 0 then Ok([])
    else
      var rows := shape[0];
      var cols := if |shape| == 1 then 1 else shape[1];
      if rows == 0 || cols == 0 then Ok([])
      else if |buf| != rows * cols then Raise(ValueError, "npy payload size mismatch")
      else
        ChunkSpec(buf, rows, cols);
        Ok(Chunk(buf, rows, cols))
  }

  // ---------------------------------------------------------------------------
  // Round trip

  predicate Rectangular(data: seq<seq<int>>) {
    forall i :: 0 <= i < |data| ==> |data[i]| == |data[0]|
  }

  /** Reading back what was written gives the matrix again; a matrix with no
      rows or no columns reads back as the empty list. */
  lemma NpyRoundTrip(data: seq<seq<int>>)
    requires Rectangular(data)
    ensures WriteNpy(data).Ok? ==>
      ReadNpy(WriteNpy(data).value) == Ok(if |data| == 0 || |data[0]| == 0 then [] else data)
  {
    if WriteNpy(data).Ok? {
      var rows := |data|;
      var cols := if rows > 0 then |data[0]| else 0;
      var block := HeaderBlock(rows, cols);
      var payload := SerializeInt8(data).value;
      var body := LE16(|block|) + (block + payload);
      assert WriteNpy(data).value == Magic + ([1, 0] + body);
      ReadPrefix(body);
      ReadBodyOfBlock(block, payload, rows, cols);
      ReshapeFlatten(data, rows, cols);
    }
  }

  /** Past the magic string and version 1.0, reading continues with the body. */
  lemma ReadPrefix(body: seq<Byte>)
    ensures ReadNpy(Magic + ([1, 0] + body)) == ReadBody(body, 1)
  {
    var bs := Magic + ([1, 0] + body);
    assert Take(bs, 6) == Magic;
    var afterMagic := PyDrop(bs, 6);
    assert afterMagic == [1, 0] + body;
    assert Take(afterMagic, 2) == [1, 0];
    assert PyDrop(afterMagic, 2) == body;
  }

  /** A written header block is read back as its shape, and the bytes after
      it are the payload. */
  lemma ReadBodyOfBlock(block: seq<Byte>, payload: seq<Byte>, rows: nat, cols: nat)
    requires block == HeaderBlock(rows, cols) && |block| < 0x10000
    ensures ReadBody(LE16(|block|) + (block + payload), 1) == Reshape([rows, cols], FromBytes(payload))
  {
    var body := LE16(|block|) + (block + payload);
    assert body[..2] == LE16(|block|);
    LE16RoundTrip(|block|);
    assert ReadLE(body, 2) == Ok(|block|);
    var rest := PyDrop(body, 2);
    assert rest == block + payload;
    assert Take(rest, |block|) == block;
    assert PyDrop(rest, |block|) == payload;
    HeaderDecodes(rows, cols);
  }

  lemma ReshapeFlatten(data: seq<seq<int>>, rows: nat, cols: nat)
    requires Rectangular(data) && rows == |data| && cols == (if rows > 0 then |data[0]| else 0)
    ensures Reshape([rows, cols], Flatten(data)) == Ok(if rows == 0 || cols == 0 then [] else data)
  {
    if rows > 0 && cols > 0 {
      ChunkFlatten(data, cols);
    }
  }

  /** The padded header block decodes, strips and parses to the shape it was
      written with. */
  lemma HeaderDecodes(rows: nat, cols: nat)
    ensures ParseHeader(Strip(Latin1Decode(HeaderBlock(rows, cols)))) == Some([rows, cols])
  {
    var text := HeaderText(rows, cols);
    HeaderIsLatin1(rows, cols);
    var hb := Latin1Encode(text);
    var padLen := PadFor(|hb|);
    var tail: seq<Byte> := seq(padLen, _ => 0x20) + [0x0a];
    assert HeaderBlock(rows, cols) == hb + tail;
    var tailText := Latin1Decode(tail);
    DecodeAppend(hb, tail);
    Latin1RoundTrip(text);
    assert Latin1Decode(HeaderBlock(rows, cols)) == text + tailText;
    forall i | 0 <= i < |tailText|
      ensures IsSpace(tailText[i])
    {
      assert tailText[i] as int == tail[i];
    }
    assert text[0] == '{' && text[|text| - 1] == '}';
    StripTrailingSpace(text, tailText);
    ParseShape(rows, cols);
  }

  lemma DecodeAppend(a: seq<Byte>, b: seq<Byte>)
    ensures Latin1Decode(a + b) == Latin1Decode(a) + Latin1Decode(b)
  {
    var l := Latin1Decode(a + b);
    var r := Latin1Decode(a) + Latin1Decode(b);
    assert |l| == |r|;
    forall i | 0 <= i < |l|
      ensures l[i] == r[i]
    {
      if i < |a| {
        assert l[i] as int == (a + b)[i] == a[i];
      } else {
        assert l[i] as int == (a + b)[i] == b[i - |a|];
      }
    }
  }

  /** Whitespace after text whose ends are not whitespace is all `strip`
      removes. */
  lemma StripTrailingSpace(t: string, w: string)
    requires |t| > 0 && !IsSpace(t[0]) && !IsSpace(t[|t| - 1])
    requires forall i :: 0 <= i < |w| ==> IsSpace(w[i])
    ensures Strip(t + w) == t
  {
    var s := t + w;
    assert SkipLeft(s, IsSpace) == 0;
    SkipRightPastSpace(t, w);
    assert s[0..] == s;
    assert s[..|t|] == t;
  }

  lemma {:induction false} SkipRightPastSpace(t: string, w: string)
    requires |t| > 0 && !IsSpace(t[|t| - 1])
    requires forall i :: 0 <= i < |w| ==> IsSpace(w[i])
    ensures SkipRight(t + w, IsSpace) == |t|
    decreases |w|
  {
    if |w| == 0 {
      assert t + w == t;
    } else {
      var s := t + w;
      assert s[|s| - 1] == w[|w| - 1];
      assert s[..|s| - 1] == t + w[..|w| - 1];
      SkipRightPastSpace(t, w[..|w| - 1]);
    }
  }

  lemma ParseShape(rows: nat, cols: nat)
    ensures ParseHeader(HeaderText(rows, cols)) == Some([rows, cols])
  {
    var text := HeaderText(rows, cols);
    var a := NatToString(rows);
    var b := NatToString(cols);
    var m := a + ", " + b;
    assert text == DictHead + m + DictTail;
    assert text[|text| - |DictTail|..] == DictTail;
    assert text[|DictHead|..|text| - |DictTail|] == m;
    assert m[|m| - 1] == b[|b| - 1];
    assert ',' !in a by {
      forall i | 0 <= i < |a|
        ensures a[i] != ','
      {
        assert IsDigit(a[i]);
      }
    }
    assert m == a + [','] + (" " + b);
    PartitionUnique(m, ',', a, " " + b);
    assert (" " + b)[1..] == b;
    NatRoundTrip(rows);
    NatRoundTrip(cols);
  }

  /** Cutting the concatenation of equal-length rows back into rows gives the
      rows. */
  lemma {:induction false} ChunkFlatten(data: seq<seq<int>>, cols: nat)
    requires forall i :: 0 <= i < |data| ==> |data[i]| == cols
    ensures |Flatten(data)| == |data| * cols
    ensures Chunk(Flatten(data), |data|, cols) == data
    decreases |data|
  {
    FlattenLength(data, cols);
    if |data| > 0 {
      var init := data[..|data| - 1];
      var flat := Flatten(data);
      FlattenLength(init, cols);
      assert flat == Flatten(init) + data[|data| - 1];
      assert flat[..|flat| - cols] == Flatten(init);
      assert flat[|flat| - cols..] == data[|data| - 1];
      ChunkFlatten(init, cols);
      assert data == init + [data[|data| - 1]];
    }
  }
}
