/** The two counter trackers: `Tracker` (ids continue across calls) and
    `SimpleIdTracker` (ids restart at 1 on every call). */
module IdTrackers {
  import opened VisionTypes

  /** `Tracker`: only the counter is state. */
  datatype Counter = Counter(nextId: int)

  /** `Tracker()`: the first id is 1. */
  function NewCounter(): (c: Counter)
    ensures c.nextId == 1
  {
    Counter(1)
  }

  /** `Tracker.update(boxes)`: the loop pairing each box with the counter
      and then moving the counter on. */
  function CounterUpdate(c: Counter, boxes: seq<Box>): (r: (Counter, seq<(int, Box)>))
    ensures |r.1| == |boxes|
    ensures forall i :: 0 <= i < |boxes| ==> r.1[i] == (c.nextId + i, boxes[i])
    ensures r.0.nextId == c.nextId + |boxes|
    decreases |boxes|
  {
    if |boxes| == 0 then (c, [])
    else
      var p := CounterUpdate(c, boxes[..|boxes| - 1]);
      (Counter(p.0.nextId + 1), p.1 + [(p.0.nextId, boxes[|boxes| - 1])])
  }

  /** Two calls number their boxes as one call on both lists would. */
  lemma CounterUpdateTwice(c: Counter, a: seq<Box>, b: seq<Box>)
    ensures var first := CounterUpdate(c, a);
      var second := CounterUpdate(first.0, b);
      second.0 == CounterUpdate(c, a + b).0 && first.1 + second.1 == CounterUpdate(c, a + b).1
  {
    var first := CounterUpdate(c, a);
    var second := CounterUpdate(first.0, b);
    var both := CounterUpdate(c, a + b);
    assert first.1 + second.1 == both.1 by {
      forall i | 0 <= i < |a| + |b|
        ensures (first.1 + second.1)[i] == both.1[i]
      {
        if i >= |a| {
          assert (a + b)[i] == b[i - |a|];
        }
      }
    }
  }

  /** Ids are never reused: every id of a later call is larger than every id
      of an earlier one. */
  lemma CounterNeverReuses(c: Counter, a: seq<Box>, b: seq<Box>)
    ensures var first := CounterUpdate(c, a);
      var second := CounterUpdate(first.0, b);
      forall i, j :: 0 <= i < |a| && 0 <= j < |b| ==> first.1[i].0 < second.1[j].0
  {
  }

  /** `SimpleIdTracker.update(detections)`: `enumerate(detections, start=1)`. */
  function SimpleUpdate(dets: seq<Detection>): (r: seq<Track>)
    ensures |r| == |dets|
    ensures forall i :: 0 <= i < |dets| ==>
      r[i] == Track(i + 1, dets[i].bbox, dets[i].score, dets[i].cls)
    decreases |dets|
  {
    if |dets| == 0 then []
    else
      var d := dets[|dets| - 1];
      SimpleUpdate(dets[..|dets| - 1]) + [Track(|dets|, d.bbox, d.score, d.cls)]
  }

  /** A track's id and fields depend only on its position: the tracks of a
      longer list start with those of its prefix. */
  lemma SimpleUpdatePrefix(a: seq<Detection>, b: seq<Detection>)
    ensures SimpleUpdate(a + b)[..|a|] == SimpleUpdate(a)
  {
    assert forall i :: 0 <= i < |a| ==> (a + b)[i] == a[i];
  }

  /** Ids within one call are distinct. */
  lemma SimpleUpdateDistinct(dets: seq<Detection>)
    ensures forall i, j :: 0 <= i < j < |dets| ==> SimpleUpdate(dets)[i].trackId != SimpleUpdate(dets)[j].trackId
  {
  }
}
