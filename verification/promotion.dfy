/** Knowledge-base promotion (`KBPromotionImpl.promote`): normalise a label's
    gallery embeddings, pick capped farthest-point medoids, quantise them to
    int8 and store them as an `.npy` file with a JSON meta file and a ledger
    line, rewriting only when the content hash changes. Files are a map from
    names to contents; SHA-256 is the parameter `sha`, `math.sqrt` the
    parameter `root` and `str.isalnum` the parameter `isAlnum`. */
module Promotion {
  import opened Base
  import opened Text
  import opened PyFloat
  import opened Vectors
  import opened Medoids
  import opened Npy
  import Json

  // ---------------------------------------------------------------------------
  // Labels

  predicate LabelChar(c: char, isAlnum: char -> bool) {
    isAlnum(c) || c == '-' || c == '_'
  }

  /** Every character that is not alphanumeric, `-` or `_` becomes `_`. */
  function SafeChars(name: string, isAlnum: char -> bool): (r: string)
    ensures |r| == |name|
    ensures forall i :: 0 <= i < |name| ==>
      r[i] == (if LabelChar(name[i], isAlnum) then name[i] else '_')
    ensures forall i :: 0 <= i < |r| ==> LabelChar(r[i], isAlnum)
  {
    seq(|name|, i requires 0 <= i < |name| => if LabelChar(name[i], isAlnum) then name[i] else '_')
  }

  /** A label as a file stem: non-empty, only alphanumerics, `-` and `_`, and
      no `_` at either end. */
  predicate SafeLabel(s: string, isAlnum: char -> bool) {
    && |s| > 0 && s[0] != '_' && s[|s| - 1] != '_'
    && forall i :: 0 <= i < |s| ==> LabelChar(s[i], isAlnum)
  }

  /** `_normalize_label`. */
  function NormalizeLabel(name: string, isAlnum: char -> bool): (r: string)
    ensures |r| > 0 && r[0] != '_' && r[|r| - 1] != '_'
    ensures r == "label" || SafeLabel(r, isAlnum)
    ensures StripChar(SafeChars(name, isAlnum), '_') == [] ==> r == "label"
  {
    var sanitized := StripChar(SafeChars(name, isAlnum), '_');
    StripCharInside(SafeChars(name, isAlnum), '_');
    if |sanitized| == 0 then "label" else sanitized
  }

  /** A label that is already a safe file stem is its own normal form. */
  lemma NormalizeSafeLabel(name: string, isAlnum: char -> bool)
    requires SafeLabel(name, isAlnum)
    ensures NormalizeLabel(name, isAlnum) == name
  {
    assert SafeChars(name, isAlnum) == name;
  }

  /** Normalising twice is normalising once, given that the letters of
      `label` are alphanumeric. */
  lemma NormalizeLabelIdempotent(name: string, isAlnum: char -> bool)
    requires isAlnum('l') && isAlnum('a') && isAlnum('b') && isAlnum('e')
    ensures NormalizeLabel(NormalizeLabel(name, isAlnum), isAlnum) == NormalizeLabel(name, isAlnum)
  {
    var r := NormalizeLabel(name, isAlnum);
    if r == "label" {
      assert SafeLabel(r, isAlnum);
    }
    NormalizeSafeLabel(r, isAlnum);
  }

  // ---------------------------------------------------------------------------
  // Embeddings

  /** What the caller's square root must satisfy: a positive argument has a
      positive root, as `math.sqrt` does. */
  ghost predicate PositiveRoot(root: real -> real) {
    forall x :: x > 0.0 ==> root(x) > 0.0
  }

  /** The divisor of a row: its norm, or 1.0 for a zero row. */
  function RowNorm(v: seq<real>, root: real -> real): (d: real)
    requires PositiveRoot(root)
    ensures d > 0.0
    ensures SumSq(v) == 0.0 ==> d == 1.0
  {
    if SumSq(v) > 0.0 then root(SumSq(v)) else 1.0
  }

  /** `_normalize_embeddings`: every row divided by its norm; an empty list
      or rows of different lengths raise ValueError. */
  function NormalizeEmbeddings(embs: seq<seq<real>>, root: real -> real): (r: Result<seq<seq<real>>>)
    requires PositiveRoot(root)
    ensures r.Err? <==> |embs| == 0 || !AllOfLength(embs, |embs[0]|)
    ensures r.Err? ==> r.error.kind == ValueError
    ensures r.Ok? ==> |r.value| == |embs| && AllOfLength(r.value, |embs[0]|)
    ensures r.Ok? ==> forall i, k :: 0 <= i < |embs| && 0 <= k < |embs[i]| ==>
      r.value[i][k] * RowNorm(embs[i], root) == embs[i][k]
  {
    var rows := seq(|embs|, i requires 0 <= i < |embs| => DivideBy(embs[i], RowNorm(embs[i], root)));
    assert forall i :: 0 <= i < |embs| ==> |rows[i]| == |embs[i]|;
    if |rows| == 0 then Raise(ValueError, "embeddings must contain at least one vector")
    else if !AllOfLength(rows, |rows[0]|) then Raise(ValueError, "embedding dimensions must be consistent")
    else Ok(rows)
  }

  /** A zero row comes out as the same zero row. */
  lemma ZeroRowsStayZero(embs: seq<seq<real>>, root: real -> real, i: nat)
    requires PositiveRoot(root) && NormalizeEmbeddings(embs, root).Ok? && i < |embs|
    requires forall k :: 0 <= k < |embs[i]| ==> embs[i][k] == 0.0
    ensures NormalizeEmbeddings(embs, root).value[i] == embs[i]
  {
    SumSqZeros(embs[i]);
    var r := NormalizeEmbeddings(embs, root).value;
    forall k | 0 <= k < |embs[i]|
      ensures r[i][k] == embs[i][k]
    {
      assert r[i][k] * 1.0 == embs[i][k];
    }
  }

  // ---------------------------------------------------------------------------
  // Quantisation

  /** `int(round(value * quant_scale))` clamped to [-127, 127]. */
  function QuantizeValue(x: real, scale: int): (q: int)
    ensures -127 <= q <= 127
  {
    ClampInt8(RoundHalfEven(x * scale as real))
  }

  /** Inside the int8 range the quantised value is the nearest integer to the
      scaled value: off by at most one half. */
  lemma QuantizeNearest(x: real, scale: int)
    requires -127.0 <= x * scale as real <= 127.0
    ensures var d := x * scale as real - QuantizeValue(x, scale) as real; -(1.0 / 2.0) <= d <= 1.0 / 2.0
  {
    var y := x * scale as real;
    var n := RoundHalfEven(y);
    assert -128 < n < 128;
  }

  function QuantizeRows(rows: seq<seq<real>>, scale: int): (q: seq<seq<int>>)
    ensures |q| == |rows|
    ensures forall i :: 0 <= i < |rows| ==> |q[i]| == |rows[i]|
    ensures forall i, k :: 0 <= i < |rows| && 0 <= k < |rows[i]| ==> q[i][k] == QuantizeValue(rows[i][k], scale)
  {
    seq(|rows|, i requires 0 <= i < |rows| =>
      seq(|rows[i]|, k requires 0 <= k < |rows[i]| => QuantizeValue(rows[i][k], scale)))
  }

  /** Rows of values in [-127, 127] concatenate to values that fit a signed
      char. */
  lemma {:induction false} FlattenInt8(q: seq<seq<int>>)
    requires forall i, k :: 0 <= i < |q| && 0 <= k < |q[i]| ==> -127 <= q[i][k] <= 127
    ensures AllInt8(Flatten(q))
    decreases |q|
  {
    if |q| > 0 {
      FlattenInt8(q[..|q| - 1]);
      var f := Flatten(q);
      assert f == Flatten(q[..|q| - 1]) + q[|q| - 1];
      forall j | 0 <= j < |f|
        ensures -128 <= f[j] <= 127
      {
        if j >= |Flatten(q[..|q| - 1])| {
          assert f[j] == q[|q| - 1][j - |Flatten(q[..|q| - 1])|];
        }
      }
    }
  }

  /** The quantised medoids always serialise, one byte per value. */
  lemma QuantizedSerializes(rows: seq<seq<real>>, scale: int, dim: nat)
    requires AllOfLength(rows, dim)
    ensures SerializeInt8(QuantizeRows(rows, scale)).Ok?
    ensures |SerializeInt8(QuantizeRows(rows, scale)).value| == |rows| * dim
  {
    var q := QuantizeRows(rows, scale);
    FlattenInt8(q);
    FlattenLength(q, dim);
  }

  // ---------------------------------------------------------------------------
  // Storage

  /** The promotion's files and ledger: `.npy` files by name, meta JSON files
      by name, and the ledger's lines in order. */
  datatype KbStore = KbStore(npy: map<string, seq<Byte>>, meta: map<string, Json.Value>, ledger: seq<Json.Value>)

  /** The mapping `promote` returns. */
  datatype Summary = Summary(name: string, medoids: nat, bytes: nat, hash: string, updated: bool)

  datatype Promoter = Promoter(medoidCap: int, quantScale: int)

  const DefaultPromoter := Promoter(3, 127)

  function NpyName(safe: string): string { safe + ".int8.npy" }
  function MetaName(safe: string): string { safe + ".json" }

  /** The hash of the matrix in an existing `.npy` file, or None when there is
      no file or it does not read back. */
  function ExistingHash(store: KbStore, name: string, sha: seq<Byte> -> string): (h: Option<string>)
    ensures h.Some? ==> name in store.npy && ReadNpy(store.npy[name]).Ok?
  {
    if name !in store.npy then None
    else match ReadNpy(store.npy[name])
      case Err(_) => None
      case Ok(rows) =>
        match SerializeInt8(rows)
        case Ok(bytes) => Some(sha(bytes))
        case Err(_) => None
  }

  function MetaRecord(name: string, q: seq<seq<int>>, scale: int, digest: string): Json.Value {
    Json.Dict([
      ("label", Json.Str(name)),
      ("medoids", Json.Int(|q|)),
      ("dim", Json.Int(if |q| > 0 then |q[0]| else 0)),
      ("quant", Json.Dict([("scale", Json.Int(scale)), ("dtype", Json.Str("int8"))])),
      ("hash", Json.Str(digest))])
  }

  function LedgerRecord(name: string, medoids: nat, bytes: nat, digest: string): Json.Value {
    Json.Dict([
      ("label", Json.Str(name)),
      ("medoids", Json.Int(medoids)),
      ("bytes", Json.Int(bytes)),
      ("method", Json.Str("herding")),
      ("quant", Json.Str("int8")),
      ("hash", Json.Str(digest))])
  }

  /** The second half of `promote`, from the quantised medoids on: hash them,
      compare with the stored file's hash, and rewrite the `.npy` file, the
      meta file and a ledger line only when they differ. */
  function Commit(store: KbStore, name: string, q: seq<seq<int>>, scale: int,
                  isAlnum: char -> bool, sha: seq<Byte> -> string): (r: Result<(Summary, KbStore)>)
    ensures r.Ok? ==>
      var (s, after) := r.value;
      var safe := NormalizeLabel(name, isAlnum);
      && s.name == name && s.medoids == |q| && s.bytes == |Flatten(q)|
      && (s.updated <==> ExistingHash(store, NpyName(safe), sha) != Some(s.hash))
      && (!s.updated ==> after == store)
      && (s.updated ==>
            && after.ledger == store.ledger + [LedgerRecord(name, |q|, |Flatten(q)|, s.hash)]
            && after.npy.Keys == store.npy.Keys + {NpyName(safe)}
            && (forall n :: n in store.npy && n != NpyName(safe) ==> after.npy[n] == store.npy[n])
            && after.meta == store.meta[MetaName(safe) := MetaRecord(name, q, scale, s.hash)]
            && WriteNpy(q) == Ok(after.npy[NpyName(safe)]))
    ensures SerializeInt8(q).Err? ==> r.Err? && r.error == SerializeInt8(q).error
    ensures r.Err? && SerializeInt8(q).Ok? ==>
      && ExistingHash(store, NpyName(NormalizeLabel(name, isAlnum)), sha) != Some(sha(SerializeInt8(q).value))
      && WriteNpy(q).Err? && r.error == WriteNpy(q).error
    ensures SerializeInt8(q).Ok? && WriteNpy(q).Ok? ==> r.Ok?
  {
    var data :- SerializeInt8(q);
    var digest := sha(data);
    var safe := NormalizeLabel(name, isAlnum);
    var updated := ExistingHash(store, NpyName(safe), sha) != Some(digest);
    var summary := Summary(name, |q|, |data|, digest, updated);
    if !updated then Ok((summary, store))
    else
      var file :- WriteNpy(q);
      Ok((summary, KbStore(store.npy[NpyName(safe) := file],
                           store.meta[MetaName(safe) := MetaRecord(name, q, scale, digest)],
                           store.ledger + [LedgerRecord(name, |q|, |data|, digest)])))
  }

  /** Committing the same medoids again finds the file it wrote, so nothing is
      rewritten and no ledger line is added. */
  lemma CommitRepeatIsNoop(store: KbStore, name: string, q: seq<seq<int>>, scale: int,
                           isAlnum: char -> bool, sha: seq<Byte> -> string)
    requires Rectangular(q)
    requires Commit(store, name, q, scale, isAlnum, sha).Ok?
    ensures var (s, after) := Commit(store, name, q, scale, isAlnum, sha).value;
      Commit(after, name, q, scale, isAlnum, sha) == Ok((s.(updated := false), after))
  {
    var (s, after) := Commit(store, name, q, scale, isAlnum, sha).value;
    var safe := NormalizeLabel(name, isAlnum);
    CommitHash(store, name, q, scale, isAlnum, sha);
    if s.updated {
      ReadBack(q);
      assert ExistingHash(after, NpyName(safe), sha) == Some(s.hash);
    }
  }

  /** The hash a commit reports is the hash of the serialised medoids. */
  lemma CommitHash(store: KbStore, name: string, q: seq<seq<int>>, scale: int,
                   isAlnum: char -> bool, sha: seq<Byte> -> string)
    requires Commit(store, name, q, scale, isAlnum, sha).Ok?
    ensures SerializeInt8(q).Ok?
    ensures Commit(store, name, q, scale, isAlnum, sha).value.0.hash == sha(SerializeInt8(q).value)
  {
  }

  /** The file written for a matrix reads back to rows that serialise to the
      same bytes. */
  lemma ReadBack(q: seq<seq<int>>)
    requires Rectangular(q) && WriteNpy(q).Ok? && SerializeInt8(q).Ok?
    ensures ReadNpy(WriteNpy(q).value).Ok?
    ensures SerializeInt8(ReadNpy(WriteNpy(q).value).value) == SerializeInt8(q)
  {
    NpyRoundTrip(q);
    if |q| == 0 || |q[0]| == 0 {
      FlattenLength(q, if |q| == 0 then 0 else |q[0]|);
      assert SerializeInt8(q).value == [];
      assert SerializeInt8([]) == Ok([]);
    }
  }

  // ---------------------------------------------------------------------------
  // promote

  function Pick(rows: seq<seq<real>>, sel: seq<nat>): (m: seq<seq<real>>)
    requires InRange(sel, |rows|)
    ensures |m| == |sel|
    ensures forall i :: 0 <= i < |sel| ==> m[i] == rows[sel[i]]
  {
    seq(|sel|, i requires 0 <= i < |sel| => rows[sel[i]])
  }

  /** `promote(name, gallery_embeddings)`. */
  method Promote(p: Promoter, store: KbStore, name: string, gallery: seq<seq<real>>,
                 root: real -> real, isAlnum: char -> bool, sha: seq<Byte> -> string)
    returns (r: Result<Summary>, after: KbStore)
    requires PositiveRoot(root)
    ensures |gallery| == 0 ==> r == Ok(Summary(name, 0, 0, "", false)) && after == store
    ensures |gallery| > 0 && !AllOfLength(gallery, |gallery[0]|) ==> r.Err? && r.error.kind == ValueError
    ensures r.Err? ==> after == store
    ensures r.Err? ==>
      && |gallery| > 0
      && ((!AllOfLength(gallery, |gallery[0]|) && r.error.kind == ValueError)
          || (AllOfLength(gallery, |gallery[0]|) && r.error.kind == StructError
              && |HeaderBlock(MedoidCount(|gallery|, p.medoidCap),
                              if MedoidCount(|gallery|, p.medoidCap) > 0 then |gallery[0]| else 0)| >= 0x10000))
    ensures r.Ok? && |gallery| > 0 ==>
      && r.value.name == name
      && r.value.medoids == MedoidCount(|gallery|, p.medoidCap)
      && r.value.bytes == r.value.medoids * |gallery[0]|
    ensures r.Ok? && |gallery| > 0 ==>
      var normalized := NormalizeEmbeddings(gallery, root).value;
      exists sel :: IsFarthestOrder(normalized, p.medoidCap, sel)
        && Commit(store, name, QuantizeRows(Pick(normalized, sel), p.quantScale), p.quantScale, isAlnum, sha)
           == Ok((r.value, after))
  {
    if |gallery| == 0 {
      return Ok(Summary(name, 0, 0, "", false)), store;
    }
    var normalizedOr := NormalizeEmbeddings(gallery, root);
    if normalizedOr.Err? {
      return normalizedOr.PropagateFailure(), store;
    }
    var normalized := normalizedOr.value;
    var indices := FarthestPointIndices(normalized, p.medoidCap);
    var medoids := Pick(normalized, indices);
    var q := QuantizeRows(medoids, p.quantScale);
    QuantizedSerializes(medoids, p.quantScale, |gallery[0]|);
    var committed := Commit(store, name, q, p.quantScale, isAlnum, sha);
    if committed.Err? {
      return committed.PropagateFailure(), store;
    }
    r, after := Ok(committed.value.0), committed.value.1;
  }

  /** Promoting the same gallery twice: the second call selects the same
      medoids (the farthest-point order is unique), finds the file the first
      call wrote, and changes nothing. */
  lemma PromoteRepeatIsNoop(p: Promoter, store: KbStore, name: string, normalized: seq<seq<real>>,
                            sel: seq<nat>, sel2: seq<nat>, isAlnum: char -> bool, sha: seq<Byte> -> string)
    requires IsFarthestOrder(normalized, p.medoidCap, sel) && IsFarthestOrder(normalized, p.medoidCap, sel2)
    requires |normalized| > 0 && AllOfLength(normalized, |normalized[0]|)
    requires Commit(store, name, QuantizeRows(Pick(normalized, sel), p.quantScale), p.quantScale, isAlnum, sha).Ok?
    ensures var (s, after) := Commit(store, name, QuantizeRows(Pick(normalized, sel), p.quantScale), p.quantScale, isAlnum, sha).value;
      Commit(after, name, QuantizeRows(Pick(normalized, sel2), p.quantScale), p.quantScale, isAlnum, sha)
        == Ok((s.(updated := false), after))
  {
    FarthestOrderUnique(normalized, p.medoidCap, sel, sel2);
    var q := QuantizeRows(Pick(normalized, sel), p.quantScale);
    assert Rectangular(q) by {
      forall i | 0 <= i < |q|
        ensures |q[i]| == |q[0]|
      {
        assert |q[i]| == |normalized[sel[i]]| == |normalized[0]|;
      }
    }
    CommitRepeatIsNoop(store, name, q, p.quantScale, isAlnum, sha);
  }
}
