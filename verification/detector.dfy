/** `YoloLikeDetector.detect`: the runner's raw tuples become detections,
    dropping those scored below the threshold and rounding the box outwards
    to integers. The runner is external: its output is the input here. */
module YoloDetector {
  import opened PyFloat
  import opened VisionTypes

  /** One `(x1, y1, x2, y2, score, cls_id)` tuple from the runner; the
      coordinates are taken to be finite. */
  datatype Raw = Raw(x1: real, y1: real, x2: real, y2: real, score: Float, cls: int)

  datatype Detector = Detector(inputSize: int, threshold: Float)

  /** `YoloLikeDetector(runner)`: input size 640, threshold 0.25. */
  function Default(): (d: Detector)
    ensures d.inputSize == 640 && d.threshold == Finite(0.25)
  {
    Detector(640, Finite(0.25))
  }

  /** `math.floor`. */
  function Floor(x: real): (n: int)
    ensures n as real <= x < n as real + 1.0
  {
    x.Floor
  }

  /** `math.ceil`. */
  function Ceil(x: real): (n: int)
    ensures n as real - 1.0 < x <= n as real
  {
    -((-x).Floor)
  }

  /** The box `(floor x1, floor y1, ceil x2, ceil y2)`. */
  function OuterBox(raw: Raw): Box {
    Box(Floor(raw.x1), Floor(raw.y1), Ceil(raw.x2), Ceil(raw.y2))
  }

  /** The integer box contains the float box, and by less than one unit on
      each side. */
  lemma OuterBoxContains(raw: Raw)
    ensures var b := OuterBox(raw);
      && b.x1 as real <= raw.x1 < b.x1 as real + 1.0
      && b.y1 as real <= raw.y1 < b.y1 as real + 1.0
      && b.x2 as real - 1.0 < raw.x2 <= b.x2 as real
      && b.y2 as real - 1.0 < raw.y2 <= b.y2 as real
  {
  }

  /** Ordered corners stay ordered. */
  lemma OuterBoxWellFormed(raw: Raw)
    requires raw.x1 <= raw.x2 && raw.y1 <= raw.y2
    ensures WellFormed(OuterBox(raw))
  {
  }

  /** The `score < threshold` test; a NaN score is never below it. */
  predicate Dropped(d: Detector, raw: Raw) {
    Lt(raw.score, d.threshold)
  }

  /** `detect(frame)` on the runner's output for the frame. */
  function Detect(d: Detector, results: seq<Raw>): (r: seq<Detection>)
    ensures |r| <= |results|
    ensures forall k :: 0 <= k < |r| ==> !Lt(r[k].score, d.threshold)
    decreases |results|
  {
    if |results| == 0 then []
    else
      var p := Detect(d, results[..|results| - 1]);
      var raw := results[|results| - 1];
      if Dropped(d, raw) then p else p + [Detection(OuterBox(raw), raw.score, raw.cls)]
  }

  /** Detecting a concatenation detects each part in turn, so the kept
      detections stay in runner order. */
  lemma {:induction false} DetectAppend(d: Detector, a: seq<Raw>, b: seq<Raw>)
    ensures Detect(d, a + b) == Detect(d, a) + Detect(d, b)
    decreases |b|
  {
    if |b| == 0 {
      assert a + b == a;
    } else {
      assert (a + b)[..|a + b| - 1] == a + b[..|b| - 1];
      DetectAppend(d, a, b[..|b| - 1]);
    }
  }

  /** One tuple is kept exactly when its score is not below the threshold
      (a score equal to it is kept), with its box rounded outwards and its
      score and class unchanged. */
  lemma DetectOne(d: Detector, raw: Raw)
    ensures Detect(d, [raw]) ==
      if Lt(raw.score, d.threshold) then [] else [Detection(OuterBox(raw), raw.score, raw.cls)]
    ensures raw.score == d.threshold && !raw.score.NaN? ==> |Detect(d, [raw])| == 1
  {
    assert [raw][..0] == [];
  }

  /** Every tuple at or above the threshold yields a detection. */
  lemma {:induction false} DetectKeeps(d: Detector, results: seq<Raw>, i: nat)
    requires i < |results| && !Lt(results[i].score, d.threshold)
    ensures Detection(OuterBox(results[i]), results[i].score, results[i].cls) in Detect(d, results)
  {
    var a := results[..i];
    var b := results[i..];
    assert results == a + [results[i]] + b[1..] by {
      assert b == [results[i]] + b[1..];
    }
    DetectAppend(d, a + [results[i]], b[1..]);
    DetectAppend(d, a, [results[i]]);
    DetectOne(d, results[i]);
  }
}
