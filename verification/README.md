# A verified model of the vision label-bank, knowledge-base and reporting core

This Dafny project models the deterministic core of the `vision` / `latency_vision`
repository: the logic that decides which labels a query embedding matches, what
goes into the knowledge base, and what the evaluation and CI scripts report. Every
operation is a pure function over immutable datatypes, or a small state record
whose update returns the next state. Each operation is paired with the property
the code or its tests promise. That may be an inverse (npy write and read,
`f"{x:.9f}"` and `float()`), an invariant kept across calls (queue capacity,
tracker id counters, stride bounds), or an independent reference definition
(top-k as "outranked by everything left out", quantiles as interpolation in a
sorted list).

What is modelled, by component:

- **Label bank** (`Vectors`, `Ranking`, `Sorting`, `LabelBank`, `Loader`):
  - `_normalize_vec`;
  - the brute-force `_PyIndex.search` and its (-score, index) order;
  - `add` with its validation and the int8 shadow vocabulary;
  - `_lookup_vecs` with its (-score, label) order;
  - `stats`;
  - `project_embedding`;
  - the existence check of `load_shard`.
- **Knowledge-base promotion** (`Promotion`, `Medoids`, `Npy`):
  - label sanitising;
  - row normalisation;
  - farthest-point medoid selection;
  - int8 quantisation;
  - the `.npy` v1.0 layout with its 16-byte header alignment, and reading it back;
  - `promote`'s "rewrite only when the hash changes" rule.
- **Candidate queue and matchers** (`CandidateOracle`, `NumpyMatcher`, `ExactMatcher`):
  - the bounded FIFO with drop-oldest shedding;
  - the numpy-fallback matcher's add and top-k;
  - the first-exact-match matcher.
- **Verification scripts** (`Stats`, `Calibrate`, `Manifest`, `LedgerPromotion`):
  - `_quantile`;
  - the calibration counts, diversity and margins;
  - the manifest dedupe and sort;
  - the `kb_promote` score filter.
- **Trackers and detector** (`ByteTrack`, `IdTrackers`, `YoloDetector`):
  - the greedy IoU tracker;
  - both incremental-id trackers;
  - the YOLO threshold and box rounding.
- **Pipeline** (`Pipeline`): the frame-stride controller, the `is_unknown` rule, the carry-over of the unknown flag on skipped frames, and the per-frame counters.
- **Reporting and gates** (`EvalReporting`, `Guards`, `Slo`, `VerifyAccounting`, `Repro`):
  - `_percentile` and `metrics_json`;
  - the unknowns false-accept guard;
  - the SLO gates;
  - the verify worker's accounting;
  - the canonical form that metrics are hashed in.
- **Configuration and CI text processing** (`VisionConfig`, `RoadmapParse`, `RoadmapGate`, `Acceptance`, `BuildBackend`, `WheelRecord`, `Runs`):
  - config deep-merge, environment overrides, precedence and caching;
  - the roadmap YAML-subset parser and the stage pass/skip logic;
  - acceptance-block extraction and text normalisation;
  - package name and version normalisation;
  - the wheel RECORD hash line.

Shared helpers model the Python built-ins the core relies on:

- `PyFloat`: floats with NaN and infinities, `round`, `int`, `float()` and `f"{x:.9f}"`.
- `Text`: `strip`, `split`, `partition`, `lower` and string ordering.
- `Json`: dict lookup and assignment, `float()` of a JSON value, truthiness.
- `Base`: `Option`, `Result` and Python slicing.

Python exceptions are a `Result` whose error carries the exception class.

Some inputs are parameters of the model, not computations:

- the clock;
- the detector, embedder and crop routines;
- `math.sqrt`;
- the sha256 and metrics hashes;
- file contents;
- the environment;
- the decoded TOML document.

Scores are reals. The float is modelled explicitly where the code reads numbers from JSON or text, rounds, or compares detector scores.

## Model

| member | source | states |
|---|---|---|
| Vectors.NormalizeVec | src/latency_vision/label_bank/hnsw_int8.py:42-46 | a vector keeps its length; a zero norm gives all zeros, otherwise each coordinate times the norm is the original coordinate |
| Vectors.NormalizeSquaredLength | src/latency_vision/label_bank/hnsw_int8.py:42-46 | a vector with a non-zero norm is normalised to squared length (sum of squares over norm squared) |
| Vectors.ZeroStaysZero | src/latency_vision/label_bank/hnsw_int8.py:44-45 | the zero vector normalises to itself |
| Vectors.SumSqDivide | src/latency_vision/label_bank/hnsw_int8.py:43-46 | dividing every coordinate by c divides the sum of squares by c squared |
| Ranking.Enumerate | src/latency_vision/label_bank/hnsw_int8.py:67 | `enumerate(scores)` pairs each position with its own score |
| Ranking.HitLeOrder | src/latency_vision/label_bank/hnsw_int8.py:67 | the key `(-score, index)` is a total order on hits |
| Ranking.RankHitsSpec | src/latency_vision/label_bank/hnsw_int8.py:66-69 | the search returns `k` hits (Python slice count), in descending score then ascending index, each a distinct stored position with its score, and every position left out ranks after every one kept |
| Ranking.TopKUnique | src/latency_vision/label_bank/hnsw_int8.py:66-69 | any hit list with those properties is the one the search returns |
| Ranking.SameSelection | src/latency_vision/label_bank/hnsw_int8.py:66-69 | two correct top-k answers hold the same hits |
| Sorting.Insert | src/latency_vision/label_bank/hnsw_int8.py:137 | insertion adds exactly one element |
| Sorting.SortSorted | src/latency_vision/label_bank/hnsw_int8.py:137 | `sorted` returns a permutation ordered by the key |
| Sorting.Sort | src/latency_vision/label_bank/hnsw_int8.py:137 | `sorted` returns a list of the same length holding the same elements, each as often as in the input |
| Sorting.SortStable | src/latency_vision/label_bank/hnsw_int8.py:137 | for any x, the elements that sort together with x come out in the same order as they went in, as Python's stable sort promises |
| Sorting.SortedFixed | src/latency_vision/label_bank/hnsw_int8.py:137 | a list already in key order is returned unchanged |
| Sorting.SortedUnique | src/latency_vision/label_bank/hnsw_int8.py:137 | under an antisymmetric order there is only one sorted permutation |
| LabelBank.Empty | src/latency_vision/label_bank/hnsw_int8.py:76-93 | a new bank is valid and empty |
| LabelBank.Quantize | src/latency_vision/label_bank/hnsw_int8.py:116-117 | a quantised coordinate lies in [-127, 127] |
| LabelBank.QuantizeRow | src/latency_vision/label_bank/hnsw_int8.py:114-118 | each coordinate of a row is quantised in place |
| LabelBank.QuantizeRowsLength | src/latency_vision/label_bank/hnsw_int8.py:114-118 | rows of length n give n bytes per row |
| LabelBank.Add | src/latency_vision/label_bank/hnsw_int8.py:95-120 | `add` fails exactly when a normalised vector has the wrong length or the counts differ, the length check first; on success the normalised vectors, labels and quantised bytes are appended and nothing else changes |
| LabelBank.AddValid | src/latency_vision/label_bank/hnsw_int8.py:95-120 | a successful `add` keeps vectors, labels and vocabulary in step |
| LabelBank.Search | src/latency_vision/label_bank/hnsw_int8.py:60-72 | the pure-Python index answers a query with the k best inner products (Python slice count), best first with ties by lower index, each hit scoring its own stored vector, and no stored vector outside the answer scores better |
| LabelBank.Labelled | src/latency_vision/label_bank/hnsw_int8.py:136 | each hit is paired with the label stored at its index |
| LabelBank.Unzip | src/latency_vision/label_bank/hnsw_int8.py:138-139 | the score and label lists are the two halves of the pairs, position by position |
| LabelBank.PairLeOrder | src/latency_vision/label_bank/hnsw_int8.py:137 | the key `(-score, label)` is a total order on pairs |
| LabelBank.Lookup | src/latency_vision/label_bank/hnsw_int8.py:122-140 | a query of the wrong length raises "dimension mismatch"; an empty query list raises IndexError; otherwise the answer has as many scores as labels, `k` of them by Python slice count |
| LabelBank.LookupSpec | src/latency_vision/label_bank/hnsw_int8.py:122-140 | the answer is the first query's top-k hits, labelled, re-sorted by descending score then ascending label |
| LabelBank.StatsSpec | src/latency_vision/label_bank/hnsw_int8.py:218-236 | before saving, `n_items` is the number of vectors, the index takes eight bytes per coordinate and the vocabulary one byte per coordinate |
| LabelBank.AddCounts | src/latency_vision/label_bank/hnsw_int8.py:120 | a successful `add` grows `n_items` by the number of labels |
| Loader.CheckShard | src/latency_vision/label_bank/loader.py:18-23 | `load_shard` raises FileNotFoundError exactly when neither `index.faiss` nor `index.jsonl` is present, and otherwise goes on to load |
| Loader.ProjectEmbedding | src/latency_vision/label_bank/loader.py:26-34 | a non-positive target gives `[]`; otherwise the result has the target length, keeps the vector's prefix and pads with `0.0` |
| Loader.ProjectIdempotent | src/latency_vision/label_bank/loader.py:29-34 | projecting twice to one length is projecting once, and a vector already of that length is unchanged |
| Loader.PadThenTrim | src/latency_vision/label_bank/loader.py:32-34 | padding to a longer length and trimming back gives the vector again |
| Promotion.SafeChars | src/latency_vision/kb/promotion_impl.py:22 | each character that is not alphanumeric, `-` or `_` becomes `_`; the others are kept in place |
| Promotion.NormalizeLabel | src/latency_vision/kb/promotion_impl.py:21-24 | the label is never empty, neither starts nor ends with `_`, and holds only alphanumerics, `-` and `_` (or is `label` when nothing survives the strip) |
| Promotion.NormalizeSafeLabel | src/latency_vision/kb/promotion_impl.py:21-24 | a label already of that shape is left unchanged |
| Promotion.NormalizeLabelIdempotent | src/latency_vision/kb/promotion_impl.py:21-24 | sanitising a sanitised label changes nothing |
| Promotion.RowNorm | src/latency_vision/kb/promotion_impl.py:31-32 | the divisor is positive, and 1.0 for a zero row |
| Promotion.NormalizeEmbeddings | src/latency_vision/kb/promotion_impl.py:27-39 | ValueError exactly for an empty gallery or rows of different lengths; otherwise each row divided by its norm, of the first row's length |
| Promotion.ZeroRowsStayZero | src/latency_vision/kb/promotion_impl.py:32-33 | a zero row stays zero |
| Promotion.QuantizeValue | src/latency_vision/kb/promotion_impl.py:181-185 | a quantised value lies in [-127, 127] |
| Promotion.QuantizeNearest | src/latency_vision/kb/promotion_impl.py:181-185 | inside the clamp range the quantised value is within one half of the scaled value |
| Promotion.QuantizeRows | src/latency_vision/kb/promotion_impl.py:177-187 | the quantised matrix has the medoids' shape, entry by entry |
| Promotion.QuantizedSerializes | src/latency_vision/kb/promotion_impl.py:177-188 | quantised rows always serialise, to one byte per value |
| Promotion.ExistingHash | src/latency_vision/kb/promotion_impl.py:195-201 | a stored hash exists only for a file present that reads back |
| Promotion.Commit | src/latency_vision/kb/promotion_impl.py:188-232 | the summary reports the medoid count and byte count; `updated` holds exactly when the stored file's hash differs; without an update nothing is written; with one the `.npy` file holds the written matrix, the meta record is replaced, one ledger line is appended and other files are untouched; it fails only with the serialisation error of values that are not signed bytes, or on an update with the error of writing the file, and succeeds whenever both succeed |
| Promotion.CommitRepeatIsNoop | src/latency_vision/kb/promotion_impl.py:195-224 | committing the same medoids again reports `updated = false` and changes nothing |
| Promotion.CommitHash | src/latency_vision/kb/promotion_impl.py:188-189 | the hash is that of the serialised matrix |
| Promotion.ReadBack | src/latency_vision/kb/promotion_impl.py:196-199 | a written file reads back to a matrix with the same serialised bytes |
| Promotion.Pick | src/latency_vision/kb/promotion_impl.py:176 | the medoids are the rows at the selected indices, in selection order |
| Promotion.Promote | src/latency_vision/kb/promotion_impl.py:159-232 | an empty gallery gives zero medoids, no hash, no update and no write; inconsistent rows raise ValueError and write nothing; otherwise `min(cap, n)` medoids of the gallery's width are chosen in farthest-point order and committed; the only other failure is the StructError of a header longer than `<H` can hold, so every other non-empty gallery of equal-length rows is promoted |
| Promotion.PromoteRepeatIsNoop | src/latency_vision/kb/promotion_impl.py:203-224 | promoting the same gallery a second time reports no update and writes nothing |
| Medoids.ExtMax | src/latency_vision/kb/promotion_impl.py:73 | `max` over reals extended with infinity is an upper bound equal to one argument |
| Medoids.FirstOfMax | src/latency_vision/kb/promotion_impl.py:53-59 | the first pick has the largest squared norm, the earliest index winning ties |
| Medoids.ArgMin | src/latency_vision/kb/promotion_impl.py:66 | `min(range(n), key=(sims[idx], idx))` is a position whose key is least |
| Medoids.FarthestPointIndices | src/latency_vision/kb/promotion_impl.py:46-76 | the result has `min(cap, n)` distinct in-range indices (none when that is not positive); the first has the largest norm; each later one is the unchosen row of least highest similarity to those chosen, smallest index first |
| Medoids.FarthestOrderUnique | src/latency_vision/kb/promotion_impl.py:46-76 | only one index list meets that description |
| Medoids.GreedyStepUnique | src/latency_vision/kb/promotion_impl.py:65-70 | each greedy step has one possible pick |
| Medoids.RaiseSlots | src/latency_vision/kb/promotion_impl.py:71-75 | after a pick each row's similarity is the larger of the old one and its similarity to the pick, and chosen rows are set to infinity |
| Medoids.PickIsGreedy | src/latency_vision/kb/promotion_impl.py:65-70 | the least `(sims[idx], idx)` is an unchosen row and the greedy choice, so the inner `while` never runs |
| Npy.ByteToInt8 | src/latency_vision/kb/promotion_impl.py:128-129 | a byte read as `array("b")` is a signed value in [-128, 127] |
| Npy.BytesRoundTrip | src/latency_vision/kb/promotion_impl.py:79-83 | signed values written as bytes read back unchanged |
| Npy.SerializeInt8 | src/latency_vision/kb/promotion_impl.py:79-83 | serialisation succeeds exactly when every value fits a signed byte, giving one byte per value in row order; otherwise it raises OverflowError |
| Npy.HeaderText | src/latency_vision/kb/promotion_impl.py:89-90 | the header is the text of the dict with the int8 descriptor, `fortran_order` False and the shape: it opens with the fixed descriptor prefix and is enclosed in braces |
| Npy.Latin1RoundTrip | src/latency_vision/kb/promotion_impl.py:91 | Latin-1 encoding followed by decoding is the identity |
| Npy.HeaderIsLatin1 | src/latency_vision/kb/promotion_impl.py:91 | the header text encodes in Latin-1 |
| Npy.PadFor | src/latency_vision/kb/promotion_impl.py:94-95 | the padding is under 16 and brings magic, version, length and header to a multiple of 16 |
| Npy.HeaderBlock | src/latency_vision/kb/promotion_impl.py:92-96 | the padded header block ends at a 16-byte boundary |
| Npy.LE16RoundTrip | src/latency_vision/kb/promotion_impl.py:100-114 | `<H` packing reads back as the same length |
| Npy.WriteNpy | src/latency_vision/kb/promotion_impl.py:86-102 | writing fails only when the header length does not fit `<H`, with StructError, or a value is not a signed byte, with OverflowError |
| Npy.ReadNpy | src/latency_vision/kb/promotion_impl.py:105-112 | a wrong magic raises "invalid npy magic header" and a missing version raises "invalid npy version" |
| Npy.Reshape | src/latency_vision/kb/promotion_impl.py:120-139 | an empty shape gives `[]`; a payload whose size differs from rows times columns (both non-zero) is an error; otherwise the rows concatenate to the payload |
| Npy.ChunkSpec | src/latency_vision/kb/promotion_impl.py:135-138 | the payload is cut into `rows` rows of `cols` values that concatenate back to it |
| Npy.ParseShape | src/latency_vision/kb/promotion_impl.py:119-120 | the written header reads back as the shape `(rows, cols)` |
| Npy.HeaderDecodes | src/latency_vision/kb/promotion_impl.py:117-120 | the padded header block, decoded and stripped, reads back as the shape |
| Npy.NpyRoundTrip | src/latency_vision/kb/promotion_impl.py:86-139 | reading back a written rectangular matrix gives it again, or `[]` when it has no rows or no columns |
| CandidateOracle.Create | src/latency_vision/oracle/in_memory_oracle.py:23-26 | a new queue has capacity `max(0, maxlen)`, no records and nothing shed |
| CandidateOracle.Enqueue | src/latency_vision/oracle/in_memory_oracle.py:29-39 | with capacity zero the record is shed at once; otherwise it becomes the newest record, the oldest is dropped and counted exactly when the queue was full, and the queue never exceeds capacity |
| CandidateOracle.EmbeddingValue | src/latency_vision/oracle/in_memory_oracle.py:47 | the embedding becomes a list of the same floats |
| CandidateOracle.Payload | src/latency_vision/oracle/in_memory_oracle.py:46-47 | the payload always has `embedding`, every context key keeps its value, and the record's embedding fills `embedding` only when the context lacks it |
| CandidateOracle.Next | src/latency_vision/oracle/in_memory_oracle.py:41-48 | `next` returns None exactly when the queue is empty; otherwise it removes the oldest record and returns an empty label list with its payload |
| CandidateOracle.Conservation | src/latency_vision/oracle/in_memory_oracle.py:29-48 | over any run of calls, records held plus shed plus delivered grow by exactly the number of enqueues |
| CandidateOracle.RunValid | src/latency_vision/oracle/in_memory_oracle.py:24-39 | the queue stays within its capacity after every call |
| CandidateOracle.Fifo | src/latency_vision/oracle/in_memory_oracle.py:36-45 | the records removed (shed or delivered), followed by those still queued, are the records enqueued, in order |
| CandidateOracle.DeliveredInOrder | src/latency_vision/oracle/in_memory_oracle.py:43-45 | the records `next` delivers come out in the order they were removed |
| CandidateOracle.ZeroCapacity | src/latency_vision/oracle/in_memory_oracle.py:31-34 | with capacity zero the queue stays empty, `next` delivers nothing and every enqueue is shed |
| NumpyMatcher.FreshValid | src/latency_vision/matcher/py_fallback.py:20-23 | a new matcher has no dimension, rows or labels |
| NumpyMatcher.AsRows | src/latency_vision/matcher/py_fallback.py:28-30 | a flat vector of floats becomes exactly one row, itself; a non-empty list of equal-length rows stays as it is; an empty list is one row of width zero; only ragged rows are an error, a ValueError |
| NumpyMatcher.EmptyListOneRow | src/latency_vision/matcher/py_fallback.py:28-30 | `[]`, read as a flat vector or as a list of rows, becomes the same single row of width zero |
| NumpyMatcher.NormalizeRows | src/latency_vision/matcher/py_fallback.py:31-33 | each row is divided by its norm, floored at 1e-12 |
| NumpyMatcher.AddRows | src/latency_vision/matcher/py_fallback.py:46-55 | the first rows fix the dimension; rows of another width raise and change nothing; otherwise rows and labels are appended |
| NumpyMatcher.AddSpec | src/latency_vision/matcher/py_fallback.py:35-37 | `add` on an empty matcher stores the normalised vector and fixes the dimension to its length; later it fails exactly on a length mismatch; a success adds one label |
| NumpyMatcher.AddMany | src/latency_vision/matcher/py_fallback.py:39-55 | ragged rows raise ValueError; "vecs and labels length mismatch" is raised when the row count differs from the label count, a flat vector or `[]` counting as one row; when the counts agree it fails exactly on a width that differs from the stored dimension; a success stores exactly the old rows followed by the normalised new rows, fixes the dimension to their width and appends the labels |
| NumpyMatcher.AddIsAddManyOfOne | src/latency_vision/matcher/py_fallback.py:35-44 | `add(vec, label)` behaves as `add_many` of the flat vector with the one label |
| NumpyMatcher.AddManyValid | src/latency_vision/matcher/py_fallback.py:39-55 | a successful `add_many` appends the labels and keeps rows and labels in step |
| NumpyMatcher.Neighbors | src/latency_vision/matcher/py_fallback.py:68 | each hit becomes the label stored at its index with its score |
| NumpyMatcher.TopK | src/latency_vision/matcher/py_fallback.py:57-68 | an empty matcher or `k <= 0` gives `[]`; a query of another width raises ValueError; otherwise `min(k, n)` neighbours |
| NumpyMatcher.TopKSpec | src/latency_vision/matcher/py_fallback.py:60-68 | the neighbours are the top `min(k, n)` rows by descending similarity to the normalised query, equal scores in insertion order |
| Stats.PyIndex | scripts/verify_calibrate.py:42-45 | Python indexing succeeds exactly for `-n <= i < n`, counting from the end for negative `i`, and otherwise raises IndexError |
| Stats.RealLeOrders | scripts/verify_calibrate.py:37 | `<=` on reals is a total order, so `sorted` is determined |
| Stats.Quantile | scripts/verify_calibrate.py:34-39 | the quantile of no values is 0.0 and of one value is that value |
| Stats.QuantileBounds | scripts/verify_calibrate.py:34-45 | for a non-empty list and q in [0, 1] the quantile exists and lies between two of the values |
| Stats.QuantileEnds | scripts/verify_calibrate.py:34-45 | q = 0 gives the smallest value and q = 1 the largest |
| Stats.QuantileOfSorted | scripts/verify_calibrate.py:37-45 | for two or more values the quantile interpolates the sorted list at `(n - 1) * q` |
| Stats.QuantileOrderFree | scripts/verify_calibrate.py:37 | reordering the values does not change any quantile |
| Stats.InterpolateInRange | scripts/verify_calibrate.py:40-45 | interpolating a sorted list at a position inside it gives a value between its first and last |
| Stats.InterpolateBetween | scripts/verify_calibrate.py:41-45 | the interpolated value lies between the two neighbours `s[f]` and `s[f + 1]` |
| Stats.QuantileOutOfRange | scripts/verify_calibrate.py:40-45 | whenever `int((n - 1) * q)` lies past the end of the sorted list, or before its start even counting from the back, `_quantile` raises IndexError |
| Calibrate.ReadRow | scripts/verify_calibrate.py:55-57 | a manifest row yields its `label` and `source` strings; a row with no `label` raises KeyError; a row that is not an object raises TypeError |
| Calibrate.ReadRows | scripts/verify_calibrate.py:54-57 | the rows read in order, and reading fails exactly when some row fails |
| Calibrate.SourcesOfMeaning | scripts/verify_calibrate.py:57 | a source belongs to a label's set exactly when some row pairs them |
| Calibrate.Find | scripts/verify_calibrate.py:56 | looking up a label finds its entry or reports that none exists |
| Calibrate.Tally | scripts/verify_calibrate.py:52-57 | one entry per distinct label, each counting that label's rows and holding its distinct sources |
| Calibrate.MaxCount | scripts/verify_calibrate.py:64 | the maximum is one of the counts and bounds them all, 0 for none |
| Calibrate.MinCount | scripts/verify_calibrate.py:83 | the minimum is one of the values and bounded by them all, 0 for none |
| Calibrate.Others | scripts/verify_calibrate.py:63 | the other labels' counts are exactly those of every entry but this one |
| Calibrate.DeltaAt | scripts/verify_calibrate.py:61-64 | a label's delta is its count minus the largest count of the other labels, or minus 0 when it is the only one |
| Calibrate.DeltaPositive | scripts/verify_calibrate.py:61-64 | the delta is positive exactly when the label outnumbers every other, and non-negative exactly when no other label is commoner |
| Calibrate.OnePositiveDelta | scripts/verify_calibrate.py:61-64 | at most one label has a positive delta |
| Calibrate.QuantileAt | scripts/verify_calibrate.py:69-84 | for q in [0, 1] the quantile never fails |
| Calibrate.Diversities | scripts/verify_calibrate.py:60 | a label's diversity is the number of its distinct sources |
| Calibrate.Calibrate | scripts/verify_calibrate.py:48-97 | calibration succeeds exactly when every row reads; it records the seed and clock, `sprt.reject` is 0.0 and `sprt.accept` is the median count |
| Calibrate.CalibrateSummary | scripts/verify_calibrate.py:52-84 | `diversity_min` is 0 for no rows and otherwise the least diversity of a label present; the median count lies between the counts of two labels present |
| Calibrate.CalibrateFields | scripts/verify_calibrate.py:59-84 | `diversity_min` and the count quantiles are computed from the tallied labels |
| Calibrate.EqualsRq | scripts/verify_calibrate.py:65-82 | `E_q` equals `r_q`, since both quantile the same counts |
| Calibrate.HashIgnoresClock | scripts/verify_calibrate.py:86-97 | the same rows and seed give the same result, hash included, whatever the clock says |
| Manifest.PHash | scripts/verify_build_manifest.py:13-14 | the pHash is the first sixteen hex digits of the digest |
| Manifest.Field | scripts/verify_build_manifest.py:23-27 | reading a field succeeds exactly when the record is an object with that key |
| Manifest.EntryOf | scripts/verify_build_manifest.py:32-41 | the row written carries the record's label and the file's pHash |
| Manifest.Step | scripts/verify_build_manifest.py:22-41 | a record whose `(label, phash)` was seen only counts a duplicate; a new key adds one row and joins the seen set |
| Manifest.Scan | scripts/verify_build_manifest.py:18-41 | when the loop completes, every record was either kept as a row or counted as a duplicate, and the seen set holds one distinct pair per kept row |
| Manifest.FirstIndicesSpec | scripts/verify_build_manifest.py:27-31 | a record is kept exactly when no earlier record has its key |
| Manifest.ScanSpec | scripts/verify_build_manifest.py:18-41 | the rows kept are the first record of each key, in input order, and rows plus duplicates is the number of records |
| Manifest.EntryLeOrder | scripts/verify_build_manifest.py:42 | the key `(label, phash)` orders rows totally |
| Manifest.BuildManifest | scripts/verify_build_manifest.py:17-47 | the count returned is the number of rows written |
| Manifest.BuildManifestSpec | scripts/verify_build_manifest.py:17-47 | rows plus duplicates is the number of records, no two rows share a `(label, phash)`, the rows are sorted by that key and are exactly the first occurrences |
| Manifest.KeptKeysDistinct | scripts/verify_build_manifest.py:27-31 | the rows kept have pairwise different keys |
| LedgerPromotion.CoerceScore | scripts/kb_promote.py:17-24 | `None` exactly when `float()` fails or gives NaN, the float otherwise; null, lists and objects give `None`, an integer its value |
| LedgerPromotion.Decide | scripts/kb_promote.py:71-87 | a truthy `is_unknown_truth` is always refused as `unknown-truth`; a promotion carries the row's ids and its coerced score |
| LedgerPromotion.DecideSpec | scripts/kb_promote.py:74-87 | a row is promoted exactly when it is not unknown-truth and its score coerces to at least 0.5 |
| LedgerPromotion.Verdicts | scripts/kb_promote.py:71 | every ledger row is decided, in order |
| LedgerPromotion.BuildReportSpec | scripts/kb_promote.py:68-89 | the promotions and refusals are the rows' verdicts split in order, and together they number the rows |
| LedgerPromotion.PromotionsAboveCutoff | scripts/kb_promote.py:75-87 | every promotion scores at least 0.5 and every unknown-truth row is among the refusals |
| LedgerPromotion.NoLedger | scripts/kb_promote.py:49-58 | without a ledger there are no promotions and one `no-ledger` refusal |
| ByteTrack.IoU | src/vision/track_bytetrack_adapter.py:18-35 | boxes that do not overlap have IoU 0 |
| ByteTrack.IoUSymmetric | src/vision/track_bytetrack_adapter.py:18-35 | IoU does not depend on the order of its arguments |
| ByteTrack.IoUUnit | src/vision/track_bytetrack_adapter.py:18-35 | for well-formed boxes IoU lies in [0, 1] |
| ByteTrack.IoUSelf | src/vision/track_bytetrack_adapter.py:18-35 | a box of positive area has IoU 1 with itself |
| ByteTrack.Put | src/vision/track_bytetrack_adapter.py:56 | storing a box under an id updates that id and keeps the dict's key order consistent |
| ByteTrack.Remove | src/vision/track_bytetrack_adapter.py:67 | removing an id leaves exactly the other ids |
| ByteTrack.PopKey | src/vision/track_bytetrack_adapter.py:67 | `pop(track_id, None)` removes that id and nothing else |
| ByteTrack.Create | src/vision/track_bytetrack_adapter.py:13-16 | a new tracker stores no tracks and hands out ids from 1 |
| ByteTrack.CreateDefault | src/vision/track_bytetrack_adapter.py:13 | the default IoU threshold is 0.3 |
| ByteTrack.DescendingOrders | src/vision/track_bytetrack_adapter.py:47 | `sort(reverse=True)` on `(iou, det_idx, track_id)` is a total order |
| ByteTrack.CandidatesMember | src/vision/track_bytetrack_adapter.py:42-46 | the candidate list holds exactly one entry per detection and stored track, with their IoU |
| ByteTrack.MatchFrame | src/vision/track_bytetrack_adapter.py:49-55 | the greedy pass matches each detection and each track at most once, keeps earlier matches and only adds candidates at or above the threshold |
| ByteTrack.MatchGreedy | src/vision/track_bytetrack_adapter.py:47-55 | every candidate at or above the threshold is beaten by a match that shares its detection or its track |
| ByteTrack.MatchingPartition | src/vision/track_bytetrack_adapter.py:38-55 | every detection is either matched or left free, and likewise every stored track |
| ByteTrack.MatchingPairs | src/vision/track_bytetrack_adapter.py:49-55 | each match pairs a detection with a stored track at or above the threshold |
| ByteTrack.MatchingGreedy | src/vision/track_bytetrack_adapter.py:47-55 | a detection and track above the threshold are matched to each other or to something with a higher key |
| ByteTrack.MatchMapSpec | src/vision/track_bytetrack_adapter.py:58 | `det_to_id` maps each matched detection to its track |
| ByteTrack.AssignFreshIds | src/vision/track_bytetrack_adapter.py:60-64 | unmatched detections get consecutive fresh ids in index order |
| ByteTrack.AssignFreshBoxes | src/vision/track_bytetrack_adapter.py:60-64 | each fresh id stores its detection's box and older tracks are untouched |
| ByteTrack.PutMatchesValues | src/vision/track_bytetrack_adapter.py:56 | a matched track stores its detection's box, and unmatched ones keep theirs |
| ByteTrack.PopAll | src/vision/track_bytetrack_adapter.py:66-67 | the unmatched old tracks are removed and nothing else |
| ByteTrack.Update | src/vision/track_bytetrack_adapter.py:37-73 | one track per detection, in detection order, with its box, score and class; the id counter never goes back |
| ByteTrack.MatchedId | src/vision/track_bytetrack_adapter.py:58-72 | a matched detection reports its track's id |
| ByteTrack.FreshId | src/vision/track_bytetrack_adapter.py:60-64 | an unmatched detection gets the next counter value, and the counter advances by the number of unmatched detections |
| ByteTrack.UpdateIdSource | src/vision/track_bytetrack_adapter.py:49-64 | each reported id is an old track above the threshold or a fresh id from this call |
| ByteTrack.UpdateDistinct | src/vision/track_bytetrack_adapter.py:49-72 | the ids of one update are pairwise distinct |
| ByteTrack.UpdateGreedy | src/vision/track_bytetrack_adapter.py:47-56 | a detection and old track above the threshold end up matched to each other or beaten by a higher-key match |
| ByteTrack.UpdateStoresReturned | src/vision/track_bytetrack_adapter.py:56-63 | every returned track is stored with its box |
| ByteTrack.UpdateStoresOnlyReturned | src/vision/track_bytetrack_adapter.py:56-67 | every stored track was returned: unmatched old tracks are dropped |
| ByteTrack.UpdateValid | src/vision/track_bytetrack_adapter.py:37-73 | stored ids stay below the counter, so fresh ids are never reused |
| ByteTrack.UpdateFromEmpty | src/vision/track_bytetrack_adapter.py:60-64 | with no stored tracks the ids are the counter, counter + 1, and so on |
| IdTrackers.NewCounter | src/vision/tracker.py:11-12 | the counter starts at 1 |
| IdTrackers.CounterUpdate | src/vision/tracker.py:30-34 | one pair per box, in order, with consecutive ids from the counter and the box unchanged; the counter moves on by the number of boxes |
| IdTrackers.CounterUpdateTwice | src/vision/tracker.py:30-34 | two calls give what one call on both lists gives |
| IdTrackers.CounterNeverReuses | src/vision/tracker.py:12-33 | every id of a later call exceeds every id of an earlier one |
| IdTrackers.SimpleUpdate | src/vision/track_adapter.py:20-24 | one track per detection, in order, with ids 1..n and the detection's box, score and class |
| IdTrackers.SimpleUpdatePrefix | src/vision/track_adapter.py:20-24 | no state is kept: a call on a longer list starts with the answer for its prefix |
| IdTrackers.SimpleUpdateDistinct | src/vision/track_adapter.py:22 | the ids of one call are pairwise distinct |
| YoloDetector.Default | src/vision/detect_yolo_adapter.py:20-21 | the default input size is 640 and the threshold 0.25 |
| YoloDetector.Floor | src/vision/detect_yolo_adapter.py:34-35 | `math.floor` is the greatest integer not above x |
| YoloDetector.Ceil | src/vision/detect_yolo_adapter.py:36-37 | `math.ceil` is the least integer not below x |
| YoloDetector.OuterBoxContains | src/vision/detect_yolo_adapter.py:33-38 | the integer box contains the float box, by less than one unit on each side |
| YoloDetector.OuterBoxWellFormed | src/vision/detect_yolo_adapter.py:33-38 | an ordered float box gives an ordered integer box |
| YoloDetector.Detect | src/vision/detect_yolo_adapter.py:27-40 | no detection scores below the threshold, and there are no more than the runner gave |
| YoloDetector.DetectAppend | src/vision/detect_yolo_adapter.py:30-40 | detections keep the runner's order |
| YoloDetector.DetectOne | src/vision/detect_yolo_adapter.py:31-39 | one result is dropped exactly when its score is below the threshold, a score equal to it is kept, and the score and class pass through |
| YoloDetector.DetectKeeps | src/vision/detect_yolo_adapter.py:31-39 | every result at or above the threshold appears among the detections |
| ExactMatcher.Match | src/vision/matcher/__init__.py:38-41 | the result is the smallest index whose candidate equals the query, or -1 exactly when none does |
| Pipeline.IsUnknown | src/latency_vision/pipeline_detect_track_embed.py:135-136 | a match is unknown exactly when fewer than `min_neighbors` neighbours score at or above the threshold |
| Pipeline.UnknownMonotone | src/latency_vision/pipeline_detect_track_embed.py:135-136 | raising the threshold never turns an unknown match known, and no neighbours is unknown whenever one is required |
| Pipeline.FrameUnknown | src/latency_vision/pipeline_detect_track_embed.py:185-187 | a fully processed frame is unknown exactly when every result is unknown, which includes having none |
| Pipeline.ControlStep | src/latency_vision/pipeline_detect_track_embed.py:165-175 | over budget resets the low-water count; the stride only drops over budget or after `window` low-water evaluations in a row |
| Pipeline.ControlStepInRange | src/latency_vision/pipeline_detect_track_embed.py:166-175 | one evaluation moves the stride by at most one and keeps it within [min_stride, max_stride] |
| Pipeline.ControlStepUp | src/latency_vision/pipeline_detect_track_embed.py:166-168 | over budget below the cap, the stride goes up by exactly one |
| Pipeline.Control | src/latency_vision/pipeline_detect_track_embed.py:163-175 | over any sequence of evaluations, from any start and for any bounds, the stride stays within the range spanned by its start, `min_stride` and `max_stride`, and an over-budget last evaluation leaves the low-water count at zero |
| Pipeline.LowRunMeaning | src/latency_vision/pipeline_detect_track_embed.py:169-171 | the trailing low-water run consists of low-water evaluations |
| Pipeline.UnderBudgetCountsRun | src/latency_vision/pipeline_detect_track_embed.py:169-175 | the low-water counter never exceeds the trailing run of low-water evaluations |
| Pipeline.ControlInRange | src/latency_vision/pipeline_detect_track_embed.py:163-175 | over any sequence of evaluations the stride stays within [min_stride, max_stride] |
| Pipeline.DownNeedsWindow | src/latency_vision/pipeline_detect_track_embed.py:169-173 | a drop in stride comes only after at least `window` low-water evaluations in a row |
| Pipeline.Keep | src/latency_vision/pipeline_detect_track_embed.py:150 | the bounded deque keeps the last `window` durations |
| Pipeline.InterpBetween | src/latency_vision/pipeline_detect_track_embed.py:152 | an inclusive-method cut point lies between its two neighbouring sorted values |
| Pipeline.InclusiveCutBounds | src/latency_vision/pipeline_detect_track_embed.py:151-155 | each inclusive percentile of two or more durations lies between two of them |
| Pipeline.Create | src/latency_vision/pipeline_detect_track_embed.py:49-66 | a new pipeline starts at frame 0 with the configured stride, no samples and a known last frame |
| Pipeline.UnknownFlags | src/latency_vision/pipeline_detect_track_embed.py:132-137 | each track's unknown flag follows the rule for its own neighbours |
| Pipeline.Process | src/latency_vision/pipeline_detect_track_embed.py:73-192 | `process` fails exactly when the stride or the window is zero (modulo by zero, an empty deque mean) |
| Pipeline.ProcessCounts | src/latency_vision/pipeline_detect_track_embed.py:76-149 | each call advances the frame index, appends one frame time, one unknown flag and one controller entry; only frames with `idx % stride == 0` are processed and add stage times |
| Pipeline.ProcessUnknownFlag | src/latency_vision/pipeline_detect_track_embed.py:184-191 | a skipped frame repeats the last unknown flag; a processed frame records whether all its results are unknown |
| Pipeline.ProcessWindow | src/latency_vision/pipeline_detect_track_embed.py:150-175 | the window keeps the last `window` durations; without auto-stride or with fewer than 30 durations the controller is untouched; the stride stays in range |
| Pipeline.ProcessP95InWindow | src/latency_vision/pipeline_detect_track_embed.py:151-159 | the window p95 exists exactly when two or more durations are held, and lies between two of them |
| Stats.Percentile | src/latency_vision/eval_reporting.py:11-16 | the percentile of no values is 0.0 and of one value is that value |
| Stats.PercentileIsQuantile | src/latency_vision/eval_reporting.py:11-24 | `_percentile(v, q)` is the calibration quantile at `q / 100` |
| EvalReporting.DropStages | src/latency_vision/eval_reporting.py:48 | every stage keeps its name and loses its first `warmup` samples |
| EvalReporting.Warmup | src/latency_vision/eval_reporting.py:45-48 | a positive warmup drops that many leading samples from frames, flags and every stage alike; otherwise nothing changes |
| EvalReporting.WarmupCompose | src/latency_vision/eval_reporting.py:45-48 | dropping a then b samples is dropping a + b |
| EvalReporting.Mean | src/latency_vision/eval_reporting.py:50-59 | the mean of no values is 0.0; otherwise it times the count is the sum |
| EvalReporting.Overheads | src/latency_vision/eval_reporting.py:61-71 | each frame's overhead plus its four stage times (0 where missing) is the frame time |
| EvalReporting.UnknownRate | src/latency_vision/eval_reporting.py:74 | the unknown rate is the share of true flags, 0 for none, within [0, 1] |
| EvalReporting.WithinPct | src/latency_vision/eval_reporting.py:75-79 | the within-budget figure is the percentage of frames at or under budget, 0 for none, within [0, 100] |
| EvalReporting.PercentileBounds | src/latency_vision/eval_reporting.py:11-24 | for q in [0, 100] the percentile of a non-empty list lies between two of its values |
| EvalReporting.Fps | src/latency_vision/eval_reporting.py:50 | fps is 0 for no frames, fails on a zero mean, and is otherwise 1000 over the mean |
| EvalReporting.StageMeans | src/latency_vision/eval_reporting.py:55-72 | the stage means cover exactly `detect`, `track`, `embed`, `match` and `overhead`; each stage's value is the mean of its samples, and 0 when the stage is missing or has none; the overhead is the mean of frame time minus the four stage samples at each index |
| EvalReporting.Report | src/latency_vision/eval_reporting.py:50-93 | the report carries fps, the 50th/95th/99th percentiles of the frame times, the within-budget percentage, the unknown rate and the stage means of `StageMeans` |
| EvalReporting.MetricsJson | src/latency_vision/eval_reporting.py:27-93 | `metrics_json` fails only when the frames after warmup have a zero mean |
| EvalReporting.MetricsNoFrames | src/latency_vision/eval_reporting.py:50-79 | with no frames after warmup, fps, the percentiles and the within-budget figure are all 0 |
| EvalReporting.MetricsPercentilesInRange | src/latency_vision/eval_reporting.py:51-53 | p50 is at least some frame time and p99 at most some frame time |
| EvalReporting.MetricsSteadyPercentiles | src/latency_vision/eval_reporting.py:51-53 | when every frame takes the same time, all three percentiles are that time |
| EvalReporting.MetricsAllWithin | src/latency_vision/eval_reporting.py:75-79 | when every frame is within budget the figure is 100 |
| EvalReporting.MetricsPositiveFps | src/latency_vision/eval_reporting.py:50 | positive frame times give a positive fps |
| Guards.TallySpec | src/latency_vision/guards.py:19-24 | the loop counts every sample and the false accepts among them; a sample that is not an object fails on `.get` |
| Guards.Rate | src/latency_vision/guards.py:12-27 | the rate is 0.0 for no samples, otherwise the false-accept count over the total, within [0, 1] |
| Guards.Guard | src/latency_vision/guards.py:44-50 | the guard passes exactly when the rate is at most the threshold, and otherwise raises AssertionError |
| Guards.NoFlagsPass | src/latency_vision/guards.py:44-45 | samples without false accepts pass any non-negative threshold |
| Guards.MissingFlagIsNotFalseAccept | src/latency_vision/guards.py:23 | a sample missing `accepted` is not a false accept |
| Slo.DefaultGates | src/latency_vision/slo.py:13-16 | the default gates are recall 0.95, lookup p95 10 ms, p@1 0.80 and end-to-end p95 33 ms |
| Slo.CoerceMetric | src/latency_vision/slo.py:19-26 | a present numeric metric is read as a float; a missing key raises KeyError; a bool or non-number raises TypeError |
| Slo.PAt1 | src/latency_vision/slo.py:39-45 | `p_at_1` is read, falling back to `p@1` when absent or None; KeyError when neither gives a value, TypeError when it is not a number |
| Slo.PAt1Fallback | src/latency_vision/slo.py:39-43 | a numeric `p_at_1` wins; without it `p@1` is used; with neither the read raises KeyError |
| Slo.AssertSlo | src/latency_vision/slo.py:29-56 | `assert_slo` passes exactly when every metric reads and every gate is met, and raises AssertionError exactly when they read but a gate fails |
| Slo.DefaultGatesMeaning | src/latency_vision/slo.py:48-56 | with the default gates it passes exactly when recall >= 0.95, lookup p95 <= 10, p@1 >= 0.80 and end-to-end p95 <= 33 |
| Slo.MissingRecallFirst | src/latency_vision/slo.py:37 | a missing recall is the first error reported |
| Slo.BoolRefused | src/latency_vision/slo.py:24-25 | a boolean metric raises TypeError |
| VerifyAccounting.NewWorker | src/vision/verify.py:30-33 | a new worker starts with all counters at zero and the seed recorded |
| VerifyAccounting.Verify | src/vision/verify.py:35-43 | the score is the embedding's sum; a call is accepted exactly when the score reaches the threshold and the label is not `__unknown__`; `called` and exactly one of `accepted` and `rejected` go up by one |
| VerifyAccounting.VerifyAllCounts | src/vision/verify.py:35-43 | after any run of calls `called == accepted + rejected`, `called` counts the calls, `accepted` the accepting ones, and `known_wrong_after_verify` stays 0 |
| VerifyAccounting.Snapshot | src/vision/verify.py:45-53 | the snapshot has the six counter keys and keeps `called == accepted + rejected` |
| VerifyAccounting.UnknownNeverAccepted | src/vision/verify.py:37 | the label `__unknown__` is never accepted |
| Repro.KeyLeOrders | src/latency_vision/telemetry/repro.py:15 | `sorted` on string keys uses a total order |
| Repro.NormalizeShape | src/latency_vision/telemetry/repro.py:12-20 | a float becomes its 9-decimal text, a list maps elementwise keeping its length, a mapping's keys come out sorted with their values normalised, and other scalars are unchanged |
| Repro.Normalize | src/latency_vision/telemetry/repro.py:12-20 | normalisation keeps mappings as mappings with the same number of entries and the same keys, keeps lists as lists of the same length, and turns a float into a string |
| Repro.NormalizeNoFloats | src/latency_vision/telemetry/repro.py:18-19 | no float survives normalisation |
| Repro.CanonicalFixed | src/latency_vision/telemetry/repro.py:12-20 | an already canonical value is left unchanged |
| Repro.NormalizeIdempotent | src/latency_vision/telemetry/repro.py:12-20 | normalising twice is normalising once |
| Repro.KeyOrderIrrelevant | src/latency_vision/telemetry/repro.py:14-15 | two mappings differing only in key order normalise identically |
| VisionConfig.DeepMergeLookup | src/vision/config.py:78-87 | for an override without repeated keys, each key of the merge reads the base's value when the override lacks it, the recursive merge when both sides hold dicts, and the override's value otherwise |
| VisionConfig.DeepMerge | src/vision/config.py:78-87 | `_deep_merge` leaves a dict with exactly the keys of the base together with those of the override, whatever the override repeats |
| VisionConfig.CastEnvValue | src/vision/config.py:104-113 | an environment value becomes an int when `int()` accepts it, else a float when `float()` accepts it, else stays the string |
| VisionConfig.Target | src/vision/config.py:120-124 | a variable addresses a `(section, field)` exactly when it carries the `VISION__` prefix and the rest splits at `__` into exactly two parts; the name is then the prefix, the first part, `__` and the second part, and the target is the two parts lower-cased |
| VisionConfig.Contains | src/vision/config.py:128 | `field in schema[section]` tests the keys of a dict, substrings of a string and items of a list, and raises TypeError for anything else |
| VisionConfig.Accepts | src/vision/config.py:119-129 | a variable is used exactly when its target names a section the schema has and `field in schema[section]` holds; a name without that shape, or naming an unknown section, is skipped without error; the membership test raises exactly when `in` raises on the section |
| VisionConfig.EnvOverrides | src/vision/config.py:116-131 | the collected overrides form a dict of sections, each a dict with no key twice |
| VisionConfig.EnvOverridesLookup | src/vision/config.py:121-130 | after collection, `(section, field)` holds the cast value of the last environment variable that addresses it, and nothing when none does |
| VisionConfig.IgnoredVariable | src/vision/config.py:122-129 | a variable without the prefix, without two parts, or naming an unknown section leaves the overrides unchanged |
| VisionConfig.SetNestedLookup | src/vision/config.py:130 | `setdefault(section, {})[field] = value` changes only that field of that section |
| VisionConfig.Defaults | src/vision/config.py:22-72 | the defaults have the seven sections detector, tracker, embedder, matcher, pipeline, paths and latency, in that order, each a dict of distinct fields |
| VisionConfig.Section | src/vision/config.py:94-100 | building one section succeeds exactly when the given value is a dict whose every key is a known field (otherwise a TypeError), and the result has exactly the section's fields |
| VisionConfig.DictToConfig | src/vision/config.py:90-101 | a built configuration has exactly the seven sections of the defaults |
| VisionConfig.DictToConfigOk | src/vision/config.py:93-101 | building succeeds exactly when every section is present and each names only known fields |
| VisionConfig.DictToConfigError | src/vision/config.py:93-101 | the first section that does not fit decides the error: KeyError when it is missing from the data, TypeError when it names an unknown field |
| VisionConfig.DictToConfigField | src/vision/config.py:93-101 | each field of a built configuration holds the data's value when the data sets it and the dataclass default otherwise |
| VisionConfig.WithToml | src/vision/config.py:147-153 | merging a TOML document over the defaults gives exactly the sections of the defaults and of the document |
| VisionConfig.Layered | src/vision/config.py:147-156 | merging the environment overrides over the defaults and TOML layer never drops a section that layer had |
| VisionConfig.Load | src/vision/config.py:146-157 | a configuration built from scratch has exactly the seven sections of the defaults, in their order |
| VisionConfig.DefaultsBuild | src/vision/config.py:148-157 | data holding every section exactly as the schema builds to the schema itself |
| VisionConfig.NothingSetGivesDefaults | src/vision/config.py:147-157 | with no TOML file and no environment variables the configuration is the defaults |
| VisionConfig.TomlOverDefault | src/vision/config.py:148-153 | a scalar field the TOML document sets overrides the default |
| VisionConfig.EnvWins | src/vision/config.py:154-156 | a field an environment variable sets overrides what the defaults and the TOML file left there |
| VisionConfig.GetConfig | src/vision/config.py:146-158 | a filled cache is returned as it is; an empty cache builds the configuration and keeps it on success, and stays empty on failure |
| VisionConfig.CacheSticks | src/vision/config.py:146-169 | after a successful first call every later call returns the same configuration whatever the TOML file or environment then say, and after `_reset_config_cache` the next call's inputs decide |
| RoadmapParse.SetGet | scripts/check_roadmap.py:95-101 | after `current[key] = value` the key reads the new value and every other key reads what it read before |
| RoadmapParse.Step | scripts/check_roadmap.py:62-101 | one line of the reading loop fails exactly when it is a list item inside a stage with no open list, the failure is a RoadmapError, and an open list always belongs to the current stage |
| RoadmapParse.StepTracks | scripts/check_roadmap.py:68-81 | a line changes the schema version only when it is an unindented `schema_version` line, to that line's value, and adds a stage exactly when it is a `  - key: value` line |
| RoadmapParse.ItemStep | scripts/check_roadmap.py:87-91 | a `- item` line appends its unquoted text to the open list of the current stage and changes nothing else; with no open list it raises |
| RoadmapParse.FieldStep | scripts/check_roadmap.py:92-101 | a nested `key: value` line stores the unquoted value and closes the list; a `key:` line with nothing after the colon stores an empty list and opens it |
| RoadmapParse.LastSchemaFound | scripts/check_roadmap.py:68-73 | a last `schema_version` value exists exactly when some line sets it |
| RoadmapParse.LastSchemaFrom | scripts/check_roadmap.py:68-73 | the value kept is the value of one of the `schema_version` lines |
| RoadmapParse.ReadTracks | scripts/check_roadmap.py:61-81 | after all lines the reader holds the value of the last `schema_version` line and one stage per `  - ` line |
| RoadmapParse.Read | scripts/check_roadmap.py:61-101 | the reading loop either fails with the RoadmapError of a list item without a list, or ends with any open list belonging to the current stage |
| RoadmapParse.ParseRoadmap | scripts/check_roadmap.py:49-105 | every failure of `_parse_roadmap` is a RoadmapError, and a parsed roadmap carries the value of the last `schema_version` line and one stage per `  - ` line |
| RoadmapParse.ParseNeedsSchema | scripts/check_roadmap.py:102-104 | a file without a `schema_version` line is refused with RoadmapError |
| RoadmapParse.ReadSnoc | scripts/check_roadmap.py:62 | reading one more line is one more step of the loop, and a failure stops the loop |
| RoadmapParse.SkippedLineIgnored | scripts/check_roadmap.py:63-66 | a blank or `#` line anywhere in the file leaves the result as if it were absent |
| RoadmapParse.StageStartOpens | scripts/check_roadmap.py:75-81 | a `  - key: value` line appends a stage holding only that key and its unquoted value, and closes any open list |
| RoadmapParse.ItemAfterStageStartRaises | scripts/check_roadmap.py:75-89 | a list item directly after a stage start has no open list and raises RoadmapError |
| RoadmapParse.IndentedBeforeStagesIgnored | scripts/check_roadmap.py:82-83 | before the first stage, indented lines other than a stage start change nothing |
| RoadmapParse.ListCollects | scripts/check_roadmap.py:87-101 | a `key:` opener followed by item lines leaves the key holding exactly the items' values, in order, with the list still open |
| RoadmapGate.NumberOf | scripts/check_roadmap.py:155-171 | `_to_float` never yields NaN and yields None for None and for values that are neither numbers nor strings |
| RoadmapGate.ParseFloatStripped | scripts/check_roadmap.py:165 | `float(value.strip())` reads the same number as `float(value)` |
| RoadmapGate.NumberOfIsFloat | scripts/check_roadmap.py:155-171 | `_to_float` gives a value exactly when `float()` accepts the input and does not give NaN, and then it is that float |
| RoadmapGate.FloatOf | scripts/check_roadmap.py:296-304 | `float(x)` of a summary value: an int or bool gives its value, None, a list or an object raise TypeError, and a string converts exactly when `float` can parse it |
| RoadmapGate.GetOr | scripts/check_roadmap.py:296-299 | `summary.get(key, default)` is the stored value when the key is present and the default otherwise |
| RoadmapGate.OfflineP95 | scripts/check_roadmap.py:301-304 | without the offline statistics file the p95 is 1e9; statistics that are not an object raise AttributeError |
| RoadmapGate.ThresholdsMet | scripts/check_roadmap.py:291-311 | a missing summary gives False, a summary that is not an object raises AttributeError, and True needs both files |
| RoadmapGate.ThresholdsMeaning | scripts/check_roadmap.py:296-311 | with the five metrics present as numbers the check is true exactly when recall >= 0.95, p@1 >= 0.80, both p95 values <= 33 and the false-accept rate <= 0.025 |
| RoadmapGate.NoOfflineStatsFails | scripts/check_roadmap.py:301-304 | without the offline statistics file the offline p95 stays 1e9 and the check is never true |
| RoadmapGate.NullPAt1Raises | scripts/check_roadmap.py:298 | a `p_at_1` of null is handed to `float()` and raises TypeError instead of falling back to `p@1` |
| RoadmapGate.LockOkNotACheck | scripts/check_roadmap.py:560-584 | the signal table has 23 checks and `lock_ok` is not one of them |
| RoadmapGate.EvaluateSignal | scripts/check_roadmap.py:587-593 | a name in the signal table gives whatever its check returns or raises; `lock_ok` and unknown names raise RoadmapError |
| RoadmapGate.CallChecks | scripts/check_roadmap.py:624-627 | calling checks one after another outside any `try` succeeds exactly when none raises, then holds each name with its check's value, and otherwise stops with what the first raising check raised |
| RoadmapGate.InitialSignals | scripts/check_roadmap.py:623-627 | the initial table is built exactly when no check raises, and then holds `lock_ok` with the lock verdict and every check name with its check's value, and nothing else; otherwise `main` stops with the error of the first check to raise in its call order, `purity_clean` last |
| RoadmapGate.InitialAgrees | scripts/check_roadmap.py:623-627 | when no check raises, every entry of the initial table is the outcome of its check |
| RoadmapGate.Where | scripts/check_roadmap.py:617-618 | a list comprehension with a condition keeps exactly the elements that meet it and is empty exactly when none does |
| RoadmapGate.CheckArtifacts | scripts/check_roadmap.py:133-139 | `_ensure_stage_artifacts` returns exactly when `artifacts` is a list of paths that all exist |
| RoadmapGate.RunKeysGrows | scripts/check_roadmap.py:660-676 | whatever the signal table holds, the `pass_when` loop only adds entries to it and records a failure only for a key it also marks unsatisfied |
| RoadmapGate.EvaluateStage | scripts/check_roadmap.py:642-683 | a stage adds failures exactly when it is neither skipped nor passing, and its evaluation never drops an entry of the signal table |
| RoadmapGate.RunKeysSpec | scripts/check_roadmap.py:660-676 | the `pass_when` loop keeps every table entry equal to its check's outcome, marks unsatisfied exactly the keys whose value is false, and records a failure only for a key it marks |
| RoadmapGate.KeyStepSpec | scripts/check_roadmap.py:661-676 | one key is looked up or evaluated once, cached in the table, and marked unsatisfied exactly when its value is false |
| RoadmapGate.EvaluateStageSpec | scripts/check_roadmap.py:642-683 | a stage gets the verdict it deserves (skip, missing artifacts, invalid `pass_when`, unmet keys or pass), and it adds failures exactly when it neither passes nor is skipped |
| RoadmapGate.SkipWins | scripts/check_roadmap.py:643-648 | a truthy `skip_reason` skips the stage before artifacts or keys are looked at, with no failure and no evaluation |
| RoadmapGate.StagePasses | scripts/check_roadmap.py:655-683 | a stage that is not skipped and has its artifacts passes exactly when every `pass_when` key is true |
| RoadmapGate.RunStages | scripts/check_roadmap.py:639-683 | the stage loop writes one gate line per stage |
| RoadmapGate.RunStagesSpec | scripts/check_roadmap.py:639-686 | each stage line carries the stage's deserved verdict, the loop adds no failure exactly when every stage is skipped or passes, and the EXPECTED line is due exactly when some stage is skipped as `pre-S3` |
| RoadmapGate.RunStagesStep | scripts/check_roadmap.py:639-683 | one more stage adds its own line and keeps the failure list empty only if it is clean |
| RoadmapGate.RunStagesAgree | scripts/check_roadmap.py:665-674 | the signal table keeps agreeing with the checks through the whole loop |
| RoadmapGate.RunStagesLines | scripts/check_roadmap.py:645-683 | stage line i reports stage i's id and verdict |
| RoadmapGate.RunStagesFailures | scripts/check_roadmap.py:652-678 | the loop adds no failure exactly when every stage is clean |
| RoadmapGate.RunStagesPreS3 | scripts/check_roadmap.py:646-647 | the `pre-S3` flag is set exactly when some stage's `skip_reason` is `pre-S3` |
| RoadmapGate.Dedupe | scripts/check_roadmap.py:614 | the lock's id map has each id once, and exactly the ids of the lock's entries |
| RoadmapGate.StageIds | scripts/check_roadmap.py:616 | one id per roadmap stage, in order, each `str(stage.get("id"))` |
| RoadmapGate.SameIds | scripts/check_roadmap.py:617-618 | no stage is missing from the lock and none is extra exactly when the roadmap and the lock name the same set of ids |
| RoadmapGate.Gate | scripts/check_roadmap.py:610-690 | `main` stops before any gate line exactly when a check raises, with the first raised error; otherwise `lock_ok` holds exactly when the lock's fileset digest equals the computed one and the roadmap and the lock name the same set of stage ids; the gate summary has one line per stage plus at most the EXPECTED line |
| RoadmapGate.GateClean | scripts/check_roadmap.py:610-690 | when no check raises, the run fails exactly when the id sets differ or some stage is neither skipped nor passing; every stage line carries its deserved verdict; the EXPECTED line is written exactly when a stage is skipped as `pre-S3` |
| RoadmapGate.GateParts | scripts/check_roadmap.py:629-686 | when no check raises, the failures are the lock mismatches followed by the stage loop's failures, and the gate lines are the loop's lines followed by the optional EXPECTED line |
| RoadmapGate.OneRaiseAborts | scripts/check_roadmap.py:624-627 | when a single check raises, `main` ends with exactly that error, whatever the roadmap and the lock say |
| RoadmapGate.NullPAt1AbortsGate | scripts/check_roadmap.py:624-627 | a metric summary whose `p_at_1` is null makes `thresholds_met` raise, and the whole gate then ends with TypeError |
| Acceptance.ReplaceNoStars | scripts/sync_sot_acceptance.py:14 | `replace("**", " ")` leaves no `**` behind |
| Acceptance.ReplaceAbsent | scripts/sync_sot_acceptance.py:14 | on text without `**` the replacement changes nothing |
| Acceptance.SubRunsNoStars | scripts/sync_sot_acceptance.py:14 | collapsing whitespace runs cannot create a `**` |
| Acceptance.StripKeeps | scripts/sync_sot_acceptance.py:14 | `strip()` keeps text free of `**` and of whitespace runs |
| Acceptance.Normalize | scripts/sync_sot_acceptance.py:13-14 | `normalize` output has no `**`, no no-break space, whitespace only as single plain spaces, and none at either end |
| Acceptance.NormalFixed | scripts/sync_sot_acceptance.py:13-14 | text already in that form is left unchanged by `normalize` |
| Acceptance.NormalizeIdempotent | scripts/sync_sot_acceptance.py:13-14 | normalising twice is normalising once |
| Acceptance.SplitLines | scripts/sync_sot_acceptance.py:18 | `splitlines()` yields lines without line-break characters |
| Acceptance.SplitTerminated | scripts/sync_sot_acceptance.py:18 | `splitlines()` of break-free lines each ended by a newline gives those lines back |
| Acceptance.SplitHead | scripts/sync_sot_acceptance.py:18 | a break-free line ended by a newline is the first line of the split, followed by the split of the rest |
| Acceptance.RunAppend | scripts/sync_sot_acceptance.py:21-37 | the loop over two runs of lines is the loop over the second starting where the first ended |
| Acceptance.NoHeaderStaysBefore | scripts/sync_sot_acceptance.py:23-26 | until the header line is seen no line is collected |
| Acceptance.NoHeaderNothing | scripts/sync_sot_acceptance.py:17-38 | a document without the exact header yields the empty string |
| Acceptance.EndedStays | scripts/sync_sot_acceptance.py:27-37 | after `break` no later line changes what was collected |
| Acceptance.SectionEnds | scripts/sync_sot_acceptance.py:27-28 | inside the block a `## ` line other than the header ends collection, whatever follows |
| Acceptance.ContinuationJoins | scripts/sync_sot_acceptance.py:32-34 | an indented line that is not a bullet is appended to the last item after a space |
| Acceptance.BlankSkipped | scripts/sync_sot_acceptance.py:35-36 | inside the block a blank line that does not continue a bullet is skipped and changes nothing |
| Acceptance.OtherLineEnds | scripts/sync_sot_acceptance.py:37 | inside the block the first non-blank line that is neither the header, a bullet nor a continuation ends collection, whatever follows |
| Acceptance.Bullets | scripts/sync_sot_acceptance.py:29-30 | the bullet line of item i is `- ` followed by the item |
| Acceptance.BulletLine | scripts/sync_sot_acceptance.py:29-31 | inside the block a `- ` line adds its stripped text after the dash as a new item |
| Acceptance.BulletsCollected | scripts/sync_sot_acceptance.py:26-31 | a run of bullet lines after an opened block collects exactly their items, in order |
| Acceptance.HeaderOpens | scripts/sync_sot_acceptance.py:22-25 | the first exact header line opens the block with nothing collected |
| Acceptance.SectionCollected | scripts/sync_sot_acceptance.py:21-31 | a header followed by bullets collects exactly those bullets' items |
| Acceptance.JoinNormal | scripts/sync_sot_acceptance.py:38 | `" ".join` of normal, non-empty items is normal |
| Acceptance.Extract | scripts/sync_sot_acceptance.py:17-38 | whatever the document, the extracted acceptance text has no `**`, no whitespace run and no surrounding whitespace |
| Acceptance.ExtractSection | scripts/sync_sot_acceptance.py:17-38 | for lines made of a header-free preamble, the header, bullets and a following `## ` section, the result is the items joined by spaces |
| Acceptance.ExtractDocument | scripts/sync_sot_acceptance.py:17-38 | the same round trip from the document text: extracting the acceptance block of a written document gives back its items joined by spaces |
| Runs.SubRuns | build_backend.py:78 | substituting runs of a character class never lengthens the text, keeps it empty exactly when it was empty, and turns a leading class character into the replacement |
| Runs.SubRunsSplit | build_backend.py:78 | a maximal run of class characters becomes exactly one replacement, and the text on either side of it is substituted on its own |
| Runs.SubRunsAppend | build_backend.py:78 | text that ends outside the class is substituted independently of what follows it: the substitution of `a + b` is that of `a` followed by that of `b` |
| Runs.SubRunsCollapsed | build_backend.py:78 | after `re.sub(r"[class]+", rep, s)` every class character is the replacement and no two are adjacent |
| Runs.CollapsedFixed | build_backend.py:78 | text in which every class character is a lone replacement is left unchanged by the substitution |
| Runs.SubRunsIdempotent | build_backend.py:78 | substituting twice is substituting once |
| Runs.SubRunsKeepsOthers | build_backend.py:78 | when the replacement belongs to the class, the characters outside the class survive unchanged and in order |
| BuildBackend.NormalizedName | build_backend.py:76-78 | `normalized_name` has no `-`, no `.`, no upper-case ASCII letter and no two adjacent separators, and is no longer than the name |
| BuildBackend.NameIdempotent | build_backend.py:76-78 | normalising a normalised name changes nothing |
| BuildBackend.NameSplit | build_backend.py:76-78 | cutting a name at a maximal run of `-`, `_` and `.` cuts the normalised name at one `_`: `normalized_name(x + run + y)` is `normalized_name(x) + "_" + normalized_name(y)` |
| BuildBackend.NameWithoutSeps | build_backend.py:76-78 | a name without `-`, `_` or `.` is only lower-cased |
| BuildBackend.NameKeepsLetters | build_backend.py:76-78 | the characters other than `-`, `_` and `.` are those of the name, in order, lower-cased |
| BuildBackend.LowerIdempotent | build_backend.py:78 | lower-casing twice is lower-casing once |
| BuildBackend.FirstLabel | build_backend.py:52 | the alternative the regular expression takes is one of the listed tags and matches the text ignoring case |
| BuildBackend.MatchAt | build_backend.py:51-56 | a match starts with `-`, lies within the text and takes only digits as its number |
| BuildBackend.VersionNoDash | build_backend.py:57 | the normalised version contains no `-` |
| BuildBackend.NormalizeVersionAsWritten | build_backend.py:28-57 | `_normalize_version` as written leaves no `-` in the version and returns a version without `-` unchanged |
| BuildBackend.NormalizeVersion | build_backend.py:28-57 | with `preview` tried before `pre`, the normalised version likewise has no `-`, and a version without `-` is returned unchanged |
| BuildBackend.SubPlain | build_backend.py:51-56 | text without `-` is not changed by the substitution |
| BuildBackend.VersionPlain | build_backend.py:51-57 | a version without `-` is already normal |
| BuildBackend.VersionIdempotent | build_backend.py:28-57 | normalising a normalised version changes nothing |
| BuildBackend.SubPrefix | build_backend.py:51-56 | a `-`-free prefix is copied through the substitution unchanged |
| BuildBackend.AsWrittenNotPrefixFree | build_backend.py:52 | the pattern lists `pre` before `preview`, which starts with it |
| BuildBackend.LabelsPrefixFree | build_backend.py:52 | with `preview` moved ahead of `pre` no alternative is a prefix of a later one |
| BuildBackend.VersionSuffix | build_backend.py:31-57 | with `preview` tried before `pre`, a version ending in `-tag[.]digits`, for any listed tag in any case, becomes the base followed by the tag's PEP 440 short form and the digits; `final` and `ga` leave the digits alone |
| BuildBackend.VersionSuffixWith | build_backend.py:31-57 | for any order of the alternatives, a `-tag[.]digits` suffix whose tag has no earlier alternative as a prefix becomes the tag's short form and the digits |
| BuildBackend.AsWrittenNoEarlierPrefix | build_backend.py:52 | in the pattern as written, only `preview` has an earlier alternative (`pre`) that is a prefix of it |
| BuildBackend.VersionSuffixAsWritten | build_backend.py:28-57 | `_normalize_version` as written turns a version ending in `-tag[.]digits`, for every listed tag except `preview`, in any case, into the base followed by the tag's short form and the digits |
| BuildBackend.PreviewAsWritten | build_backend.py:38-52 | as written, `-preview` followed by digits becomes `rcview` followed by the digits, because `pre` matches first |
| BuildBackend.PreviewCorrected | build_backend.py:38-52 | with `preview` tried first, `-preview` followed by digits becomes `rc` followed by the digits |
| BuildBackend.PreviewExample | build_backend.py:51-57 | `1.0-preview1` becomes `1.0rcview1` as written and `1.0rc1` with the corrected order |
| WheelRecord.SextetValue | build_backend.py:274 | every character of the URL-safe alphabet stands for one six-bit value and is that value's character |
| WheelRecord.SextetRoundTrip | build_backend.py:274 | each six-bit value's character reads back as that value |
| WheelRecord.AlphabetExcludes | build_backend.py:274 | the URL-safe alphabet contains none of `=`, `,`, `+` and `/` |
| WheelRecord.GroupRoundTrip | build_backend.py:274 | the sextets of one to three bytes give those bytes back |
| WheelRecord.CharsRoundTrip | build_backend.py:274 | the characters of a run of sextets read back as those sextets |
| WheelRecord.Encode | build_backend.py:274 | `urlsafe_b64encode` output is a whole number of four-character groups |
| WheelRecord.EncodeUnpadded | build_backend.py:274 | the padded encoding is the unpadded one followed by one `=` for two leftover bytes and two for one |
| WheelRecord.UnpaddedLength | build_backend.py:274 | the unpadded encoding of n bytes has (4n+2)/3 characters, rounded down |
| WheelRecord.StripPadding | build_backend.py:274 | `rstrip("=")` of the encoding removes exactly the padding |
| WheelRecord.DecodeUnpadded | build_backend.py:274 | decoding the unpadded encoding gives the bytes back |
| WheelRecord.UnpaddedInjective | build_backend.py:274 | different digests never share an encoded field |
| WheelRecord.HashRecord | build_backend.py:272-275 | the size reported is the length of the data |
| WheelRecord.HashRecordDigest | build_backend.py:272-275 | the digest field is `sha256=` followed by the unpadded URL-safe base64 of the digest, which decodes back to the digest; a 32-byte digest gives a 50-character field |
| WheelRecord.SplitLast | build_backend.py:280 | splitting at the last separator gives the parts around it, with no separator after it |
| WheelRecord.SplitLastUnique | build_backend.py:280 | when the text after a separator has none, the split from the right is at that separator |
| WheelRecord.RecordLine | build_backend.py:278-280 | a RECORD line the backend writes, read from the right, gives back the path, whatever commas it holds, the digest field and the size of the data |
| WheelRecord.ParseRecordLine | build_backend.py:280 | a row read from the right has a comma-free digest, and the line is its path, digest and the digits of its size joined by commas |
| WheelRecord.RecordTextRoundTrip | build_backend.py:280 | any path, comma-free digest field and size joined by commas read back as those three |
| WheelRecord.NoComma | build_backend.py:275 | the digest field contains no comma |
| PyFloat.RoundHalfEven | src/latency_vision/label_bank/hnsw_int8.py:116 | `round(x)` is an integer within one half of `x`, and an exact tie goes to the even neighbour |
| PyFloat.ClampInt8 | src/latency_vision/label_bank/hnsw_int8.py:109 | clipping to [-127, 127] leaves values inside the range alone and sends values above or below to the nearer bound |
| PyFloat.Trunc | scripts/verify_calibrate.py:41 | `int()` of a finite float truncates toward zero: the result is within one of `x` on the side of zero |
| PyFloat.IntRoundTrip | src/vision/config.py:108 | `int()` reads the decimal text of every integer back to that integer |
| PyFloat.Fixed9RoundTrip | src/latency_vision/telemetry/repro.py:19 | `float()` reads the text `f"{x:.9f}"` back as `x` rounded half to even to a whole number of billionths |
| Text.SplitJoin | src/vision/config.py:124 | `sep.join(s.split(sep)) == s`: the parts of a split, joined by the separator, give back the text |
| Text.Partition | scripts/check_roadmap.py:69 | `partition(sep)` without the separator returns the whole text and an empty tail; with it, the head, the separator and the tail rebuild the text and the head holds no separator |
| Text.PartitionUnique | scripts/check_roadmap.py:69 | the split `partition` returns is the only one at a separator whose head holds no separator |
| Text.LexLeTrans | src/latency_vision/label_bank/hnsw_int8.py:137 | Python's `<=` on strings, which orders equal-score labels, is transitive |
| Text.LexLeAntisym | src/latency_vision/label_bank/hnsw_int8.py:137 | two strings each `<=` the other are equal, so label order breaks every tie between distinct labels |
| Json.ToFloat | scripts/kb_promote.py:18-21 | `float(value)` on a decoded JSON value raises TypeError exactly for the values that are neither numbers nor strings, and fails otherwise only on a string, with ValueError |
| Json.PutLookup | src/vision/config.py:130 | after `d[key] = value` the key reads the new value and every other key reads what it read before |

## Left out

- Floating-point rounding of scores is not modelled: scores, norms and latencies are reals. The float is modelled explicitly where the code reads numbers from JSON or text (NaN in the score coercions, `_to_float` and the metric gates), rounds (`round` on ties, `int()` truncation, the nine-decimal format) or compares detector scores against their threshold.
- VerifyAccounting.Verify: the score is the exact sum of the embedding and the threshold a real, so a NaN score or threshold, which makes `score >= threshold` false and the call rejected, is not modelled.
- YoloDetector.Detect: the runner's coordinates are taken to be finite. A NaN or infinite coordinate makes `math.floor` or `math.ceil` raise ValueError or OverflowError (src/vision/detect_yolo_adapter.py:34-37), which the model does not show.
- `math.sqrt` and `np.linalg.norm` are a parameter `root`. Properties about unit length are stated as `r[i] * norm == v[i]` and as the squared-length identity, under the assumption that `root` returns the square root.
- sha256, the metrics hash, the fileset sha and git state are parameters of the operations that use them. Their algorithms are not modelled.
- File and process I/O is not modelled. This covers:
  - the save and load directories of the label bank;
  - JSONL ledger reading and writing;
  - the npy file handles (only the bytes are modelled);
  - reading `vision.toml` and `os.environ`, which are given as a decoded document and a list of name/value pairs;
  - the JSON and JSONL files the scripts read.
- JSON decoding errors, and the exact text of exception messages, are not modelled; errors carry only their exception class.
- The faiss branches of the label bank and matcher are not modelled, and neither are the numpy vocab stacking and its `astype` truncation path (src/latency_vision/label_bank/hnsw_int8.py:109). Only the pure-Python path with `round` and clipping is modelled.
- `HNSWInt8LabelBank.save` and `HNSWInt8LabelBank.load`: directory and file handling; only the existence check of `load_shard` is modelled (`Loader.CheckShard`).
- The `threading.Lock` of the in-memory oracle: the queue is modelled sequentially.
- The `VerifyWorker` protocol of `latency_vision.verify` has no implementation among these sources. Only the accounting of src/vision/verify.py is modelled.
- `int()` and `float()` accept underscores between digits (`1_000`, `2_5.0`) and decimal digits outside ASCII (`１２`, `١٢`), which the model's parsers `ParseInt` and `ParseFloat` do not read. The signs, surrounding whitespace, `inf`, `infinity` and `nan` in any case are read. A string with such underscores or digits becomes a string in `VisionConfig.CastEnvValue`, None in `RoadmapGate.NumberOf` and `LedgerPromotion.CoerceScore`, and a ValueError in `Json.ToFloat` and `RoadmapGate.FloatOf`, where Python would return a number.
- Case-insensitive matching and `lower()` cover ASCII letters only. Unicode case folding (for example 'ſ', 'ı', 'İ' or the Kelvin sign under `re.IGNORECASE`) is not modelled.
- NumpyMatcher.AddMany: the input is a flat vector of floats or a list of rows of floats. Scalars, arrays of three or more dimensions, and inputs numpy cannot read as floats are not modelled; what `np.asarray` and `np.linalg.norm` do with them is outside the model.
- NumpyMatcher.TopK: numpy's `argpartition` may pick any of several equal scores at the k-th place. The model keeps the lowest insertion indices, and the contract states that choice, which is stronger than what numpy guarantees.
- ByteTrack.Update: new track ids go to unmatched detections in ascending detection index. This relies on CPython iterating a set of small integers in ascending order.
- Promotion.Promote: when the npy header would not fit the two-byte length field, the model leaves the store unchanged, while the code writes a truncated file.
- Medoids.FarthestPointIndices: the inner `while candidate in selected` loop of `_farthest_point_indices` is proved never to run (`Medoids.PickIsGreedy`), so the model has no such loop.
- Npy.ReadNpy: reads only the header layout that the writer produces. It does not model `ast.literal_eval` on arbitrary dict text.
- Pipeline.Process: the clock is a parameter, and so are detection, cropping and embedding. When a stride of zero raises ZeroDivisionError, `frame_idx` has already been incremented; the model returns the error and drops that state.
- Pipeline.Process: with `window == 0` the deque of durations stays empty and the mean raises ZeroDivisionError (src/latency_vision/pipeline_detect_track_embed.py:160). By then the call has already advanced `frame_idx`, counted the frame in `frames_processed`, appended the stage samples, `per_frame_ms` and the `controller_log` entry, and set the three window quantiles to None. The model returns the error and does not promise any of that partial state.
- RoadmapGate: what each signal check function returns or raises is a parameter, and so are the lock-file validation of `_load_lock`, the fileset sha and git queries. The `isinstance(stage, dict)` guard is not modelled, because the parser only produces dicts.
- Acceptance: only the Markdown block extraction and normalisation are modelled. The HTML table scraping of the SoT document is not.
- BuildBackend: only the name and version normalisation and the RECORD hash line are modelled. Archive writing, metadata files and the sha256 digest are not.
- Slo: conversion of a very large integer metric to float, which overflows in Python, is not modelled.
- Json.ToFloat: `float(i)` on an int of magnitude at least 2^1024 - 2^970 raises OverflowError in Python, and a smaller int that a double cannot hold is rounded to the nearest double. The model returns the exact real for every int and has no OverflowError.
- LedgerPromotion.CoerceScore: for an int too large for a double, `_coerce_score` (scripts/kb_promote.py:19-20) lets the OverflowError escape, because it catches only TypeError and ValueError. The model returns the exact real (`v.Int? ==> r == Some(Finite(v.i as real))`), so it does not promise that the whole run aborts on such a score.
- RoadmapGate.NumberOf: `_to_float` calls `float(value)` on an int at scripts/check_roadmap.py:159 without a `try`, so the OverflowError of a huge int escapes. The model returns the exact real and does not promise that abort.
- RoadmapGate.FloatOf: the `float(...)` calls on summary fields at scripts/check_roadmap.py:296-304 raise OverflowError on a huge int, and nothing catches it. The model returns the exact real.
- Calibrate.ReadRow: labels and sources are taken to be strings, and any other JSON value is a TypeError. The `defaultdict` counters and source sets of scripts/verify_calibrate.py:52-57 accept any hashable value (a number, a bool or null), so the model rejects rows the script counts.
- Manifest.KeyOf: the label is taken to be a string, and any other JSON value is a TypeError. scripts/verify_build_manifest.py:27 keys its dict with any hashable label, and line 42 sorts by it, which fails only when labels of incomparable types meet.
- Guards: reading the samples from a JSONL file is not modelled; the guard takes the decoded samples.
- VisionConfig: TOML parsing is not modelled. The merge lemmas assume an override without repeated keys, which every Python dict satisfies.
- Calibration, ECE/AUROC, pHash, softmax, EMA abstention, `l2_normalize` and `quantize_float` are floating-point numerics and are not modelled. The CLI, evaluator, webcam and fixed-output stubs are plumbing.

## Findings

| source | as written | input that shows it | evidently intended | confidence | as-written member | corrected member |
|---|---|---|---|---|---|---|
| build_backend.py:38-52 | the pre-release alternation lists `pre` before `preview`, so the regex matches `pre` and leaves `view` in the version | `1.0-preview1` normalises to `1.0rcview1` | `preview` maps to `rc`, giving `1.0rc1` | not executed | BuildBackend.PreviewAsWritten | BuildBackend.PreviewCorrected |
