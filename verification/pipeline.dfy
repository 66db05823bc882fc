/** The bookkeeping of `DetectTrackEmbedPipeline.process`: which frames are
    fully processed, the unknown rule for a track's neighbours, the per-frame
    unknown flag and its carry-over to skipped frames, the rolling latency
    window and the stride controller. Detection, tracking, cropping,
    embedding, the matcher's neighbour search and the clock are outside: a
    frame's measured times and each track's neighbours arrive as input. */
module Pipeline {
  import opened Base
  import opened Sorting
  import Stats

  /** The configuration the pipeline reads at construction. */
  datatype Settings = Settings(
    frameStride: int, minStride: int, maxStride: int, autoStride: bool,
    budgetMs: real, window: nat, lowWater: real,
    threshold: real, minNeighbors: int)

  // ---------------------------------------------------------------------------
  // The unknown rule

  /** `is_unknown`: fewer than `min_neighbors` neighbours score at least the
      threshold. */
  function IsUnknown(cfg: Settings, neighbors: seq<(string, real)>): (r: bool)
    ensures r <==> CountWhere(neighbors, (n: (string, real)) => n.1 >= cfg.threshold) < cfg.minNeighbors
  {
    var above := CountWhere(neighbors, (n: (string, real)) => n.1 >= cfg.threshold);
    above < cfg.minNeighbors
  }

  lemma {:induction false} CountAboveMonotone(ns: seq<(string, real)>, lo: real, hi: real)
    requires lo <= hi
    ensures CountWhere(ns, (n: (string, real)) => n.1 >= hi) <= CountWhere(ns, (n: (string, real)) => n.1 >= lo)
    decreases |ns|
  {
    if |ns| > 0 {
      CountAboveMonotone(ns[..|ns| - 1], lo, hi);
    }
  }

  /** Raising the threshold can only turn known tracks unknown; with no
      neighbours a positive `min_neighbors` makes every track unknown. */
  lemma UnknownMonotone(cfg: Settings, neighbors: seq<(string, real)>, higher: real)
    requires cfg.threshold <= higher
    ensures IsUnknown(cfg, neighbors) ==> IsUnknown(cfg.(threshold := higher), neighbors)
    ensures cfg.minNeighbors >= 1 ==> IsUnknown(cfg, [])
  {
    CountAboveMonotone(neighbors, cfg.threshold, higher);
  }

  /** `frame_unknown` of a fully processed frame: no results, or every
      result unknown. */
  function FrameUnknown(flags: seq<bool>): (r: bool)
    ensures r <==> forall i :: 0 <= i < |flags| ==> flags[i]
  {
    |flags| == 0 || (forall i :: 0 <= i < |flags| ==> flags[i])
  }

  // ---------------------------------------------------------------------------
  // The stride controller

  datatype Controller = Controller(stride: int, underBudget: nat)

  predicate Low(cfg: Settings, p95: real) {
    p95 < cfg.budgetMs * cfg.lowWater
  }

  /** One controller evaluation on the window's p95: over budget steps the
      stride up (capped), `window` low-water evaluations in a row step it
      down (floored), anything else resets the low-water count. */
  function ControlStep(cfg: Settings, c: Controller, p95: real): (r: Controller)
    ensures p95 > cfg.budgetMs ==> r.underBudget == 0
    ensures r.stride < c.stride ==> p95 > cfg.budgetMs || (Low(cfg, p95) && c.underBudget + 1 >= cfg.window)
  {
    if p95 > cfg.budgetMs then Controller(Min(c.stride + 1, cfg.maxStride), 0)
    else if Low(cfg, p95) then
      if c.underBudget + 1 >= cfg.window then Controller(Max(c.stride - 1, cfg.minStride), 0)
      else Controller(c.stride, c.underBudget + 1)
    else Controller(c.stride, 0)
  }

  /** A stride in `[min_stride, max_stride]` stays there and moves by at
      most one. */
  lemma ControlStepInRange(cfg: Settings, c: Controller, p95: real)
    requires cfg.minStride <= c.stride <= cfg.maxStride
    ensures cfg.minStride <= ControlStep(cfg, c, p95).stride <= cfg.maxStride
    ensures c.stride - 1 <= ControlStep(cfg, c, p95).stride <= c.stride + 1
  {
  }

  /** Over budget the stride goes up by one unless already at the cap. */
  lemma ControlStepUp(cfg: Settings, c: Controller, p95: real)
    requires p95 > cfg.budgetMs && c.stride < cfg.maxStride
    ensures ControlStep(cfg, c, p95).stride == c.stride + 1
  {
  }

  /** The controller over a run of evaluations. Whatever the stride starts
      at, and even with `min_stride` above `max_stride`, it never leaves the
      range spanned by its start and the two bounds; the last evaluation
      over budget leaves the low-water count at zero. */
  function Control(cfg: Settings, c: Controller, ps: seq<real>): (r: Controller)
    ensures r.stride <= Max(c.stride, Max(cfg.minStride, cfg.maxStride))
    ensures r.stride >= Min(c.stride, Min(cfg.minStride, cfg.maxStride))
    ensures |ps| > 0 && ps[|ps| - 1] > cfg.budgetMs ==> r.underBudget == 0
    decreases |ps|
  {
    if |ps| == 0 then c else ControlStep(cfg, Control(cfg, c, ps[..|ps| - 1]), ps[|ps| - 1])
  }

  /** How many of the latest evaluations in a row were below low water. */
  function LowRun(cfg: Settings, ps: seq<real>): (n: nat)
    ensures n <= |ps|
    decreases |ps|
  {
    if |ps| == 0 || !Low(cfg, ps[|ps| - 1]) then 0 else LowRun(cfg, ps[..|ps| - 1]) + 1
  }

  lemma {:induction false} LowRunMeaning(cfg: Settings, ps: seq<real>)
    ensures forall k :: |ps| - LowRun(cfg, ps) <= k < |ps| ==> Low(cfg, ps[k])
    decreases |ps|
  {
    if |ps| > 0 && Low(cfg, ps[|ps| - 1]) {
      LowRunMeaning(cfg, ps[..|ps| - 1]);
    }
  }

  /** The low-water count never exceeds the latest run of low evaluations. */
  lemma {:induction false} UnderBudgetCountsRun(cfg: Settings, c: Controller, ps: seq<real>)
    requires c.underBudget == 0
    ensures Control(cfg, c, ps).underBudget <= LowRun(cfg, ps)
    decreases |ps|
  {
    if |ps| > 0 {
      UnderBudgetCountsRun(cfg, c, ps[..|ps| - 1]);
    }
  }

  lemma {:induction false} ControlInRange(cfg: Settings, c: Controller, ps: seq<real>)
    requires cfg.minStride <= c.stride <= cfg.maxStride
    ensures cfg.minStride <= Control(cfg, c, ps).stride <= cfg.maxStride
    decreases |ps|
  {
    if |ps| > 0 {
      ControlInRange(cfg, c, ps[..|ps| - 1]);
      ControlStepInRange(cfg, Control(cfg, c, ps[..|ps| - 1]), ps[|ps| - 1]);
    }
  }

  /** Starting in range with a zero count, the stride only goes down after
      `window` low-water evaluations in a row, the latest one included. */
  lemma DownNeedsWindow(cfg: Settings, c: Controller, ps: seq<real>, p: real)
    requires c.underBudget == 0 && cfg.minStride <= c.stride <= cfg.maxStride
    requires ControlStep(cfg, Control(cfg, c, ps), p).stride < Control(cfg, c, ps).stride
    ensures cfg.window <= |ps| + 1
    ensures forall k :: |ps| + 1 - cfg.window <= k < |ps| + 1 ==> Low(cfg, (ps + [p])[k])
  {
    var all := ps + [p];
    var before := Control(cfg, c, ps);
    ControlInRange(cfg, c, ps);
    UnderBudgetCountsRun(cfg, c, ps);
    assert all[..|all| - 1] == ps;
    assert LowRun(cfg, all) == LowRun(cfg, ps) + 1;
    LowRunMeaning(cfg, all);
  }

  // ---------------------------------------------------------------------------
  // The latency window

  /** `deque(maxlen=window).append(x)`: the oldest entries fall off. */
  function Keep(xs: seq<real>, window: nat): (r: seq<real>)
    ensures |r| == Min(|xs|, window)
    ensures r == xs[|xs| - |r|..]
  {
    if |xs| > window then xs[|xs| - window..] else xs
  }

  lemma CutIndex(i: nat, m: nat)
    requires 1 <= i <= 99 && m >= 1
    ensures 0 <= i * m / 100 < m
    ensures 0 <= i * m - (i * m / 100) * 100 < 100
  {
    var j := i * m / 100;
    assert j * 100 <= i * m;
    assert i * m <= 99 * m;
  }

  /** The weighted point `(a * (100 - delta) + b * delta) / 100`. */
  function Interp(a: real, b: real, delta: int): real {
    (a * (100 - delta) as real + b * delta as real) / 100.0
  }

  /** `statistics.quantiles(data, n=100, method="inclusive")[i - 1]`. */
  function InclusiveCut(data: seq<real>, i: nat): real
    requires |data| >= 2 && 1 <= i <= 99
  {
    var s := Sort(data, Stats.RealLe());
    var m := |s| - 1;
    CutIndex(i, m);
    var j := i * m / 100;
    Interp(s[j], s[j + 1], i * m - j * 100)
  }

  lemma InterpBetween(a: real, b: real, delta: int)
    requires a <= b && 0 <= delta <= 100
    ensures a <= Interp(a, b, delta) <= b
  {
    var d := delta as real;
    assert (100 - delta) as real == 100.0 - d;
    Stats.MulNonneg(b - a, d);
    Stats.MulNonneg(b - a, 100.0 - d);
    assert a * (100.0 - d) + b * d == a * 100.0 + (b - a) * d;
    assert a * (100.0 - d) + b * d == b * 100.0 - (b - a) * (100.0 - d);
  }

  lemma SortedMember(data: seq<real>, s: seq<real>, k: nat)
    requires multiset(s) == multiset(data) && k < |s|
    ensures exists i :: 0 <= i < |data| && data[i] == s[k]
  {
    assert s[k] in multiset(s);
    assert s[k] in data;
  }

  /** Every cut point lies between the window's smallest and largest
      duration. */
  lemma InclusiveCutBounds(data: seq<real>, i: nat)
    requires |data| >= 2 && 1 <= i <= 99
    ensures exists k :: 0 <= k < |data| && data[k] <= InclusiveCut(data, i)
    ensures exists k :: 0 <= k < |data| && InclusiveCut(data, i) <= data[k]
  {
    var s := Sort(data, Stats.RealLe());
    var m := |s| - 1;
    CutIndex(i, m);
    var j := i * m / 100;
    Stats.RealLeOrders();
    SortSorted(data, Stats.RealLe());
    assert Stats.RealLe()(s[j], s[j + 1]);
    InterpBetween(s[j], s[j + 1], i * m - j * 100);
    SortedMember(data, s, j);
    SortedMember(data, s, j + 1);
  }

  // ---------------------------------------------------------------------------
  // `process`

  /** `_eval_stage_ms`: one list per stage, appended on fully processed
      frames only. */
  datatype Stages = Stages(detect: seq<real>, track: seq<real>, embed: seq<real>, matching: seq<real>)

  datatype State = State(
    frameIdx: nat, ctrl: Controller, framesProcessed: nat,
    perFrameMs: seq<real>, stageMs: Stages, unknownFlags: seq<bool>,
    controllerLog: seq<(int, bool)>, durations: seq<real>, lastUnknown: bool,
    p50: Option<real>, p95: Option<real>, p99: Option<real>, fps: Option<real>)

  /** The pipeline right after construction. */
  function Create(cfg: Settings): (s: State)
    ensures s.frameIdx == 0 && s.framesProcessed == 0 && s.ctrl == Controller(cfg.frameStride, 0)
    ensures s.perFrameMs == [] && s.unknownFlags == [] && s.durations == [] && !s.lastUnknown
  {
    State(0, Controller(cfg.frameStride, 0), 0, [], Stages([], [], [], []), [], [], [], false,
      None, None, None, None)
  }

  /** What one `process` call measures: the frame's and the stages' times
      and, for a fully processed frame, each result's neighbours. */
  datatype Frame = Frame(
    frameMs: real, detectMs: real, trackMs: real, embedMs: real, matchMs: real,
    neighbors: seq<seq<(string, real)>>)

  function UnknownFlags(cfg: Settings, neighbors: seq<seq<(string, real)>>): (r: seq<bool>)
    ensures |r| == |neighbors|
    ensures forall i :: 0 <= i < |r| ==> r[i] == IsUnknown(cfg, neighbors[i])
  {
    seq(|neighbors|, i requires 0 <= i < |neighbors| => IsUnknown(cfg, neighbors[i]))
  }

  /** `process(frame)`, returning the results' `is_unknown` flags. The frame
      index modulo a zero stride, and the mean of an always-empty window
      (`window == 0`), raise ZeroDivisionError. */
  function Process(cfg: Settings, s: State, f: Frame): (r: Result<(State, seq<bool>)>)
    ensures r.Err? <==> s.ctrl.stride == 0 || cfg.window == 0
  {
    var idx := s.frameIdx;
    var strideUsed := s.ctrl.stride;
    if strideUsed == 0 then Raise(ZeroDivisionError, "integer modulo by zero")
    else
      var runFull := idx % strideUsed == 0;
      var flags := if runFull then UnknownFlags(cfg, f.neighbors) else [];
      var st := s.stageMs;
      var stages := if runFull then Stages(st.detect + [f.detectMs], st.track + [f.trackMs], st.embed + [f.embedMs], st.matching + [f.matchMs]) else st;
      var durations := Keep(s.durations + [f.frameMs], cfg.window);
      if |durations| == 0 then Raise(ZeroDivisionError, "division by zero")
      else
        var cuts := if |durations| >= 2 then (Some(InclusiveCut(durations, 50)), Some(InclusiveCut(durations, 95)), Some(InclusiveCut(durations, 99))) else (None, None, None);
        var avg := Sum(durations) / |durations| as real;
        var fps := if avg > 0.0 then Some(1000.0 / avg) else None;
        var p95 := if cuts.1.Some? then cuts.1.value else 0.0;
        var ctrl := if cfg.autoStride && |durations| >= 30 then ControlStep(cfg, s.ctrl, p95) else s.ctrl;
        var frameUnknown := if runFull then FrameUnknown(flags) else s.lastUnknown;
        Ok((State(idx + 1, ctrl, s.framesProcessed + (if runFull then 1 else 0),
          s.perFrameMs + [f.frameMs], stages, s.unknownFlags + [frameUnknown],
          s.controllerLog + [(strideUsed, f.frameMs <= cfg.budgetMs)], durations, frameUnknown,
          cuts.0, cuts.1, cuts.2, fps), flags))
  }

  /** One call appends exactly one frame time, one unknown flag and one
      controller entry; a frame is fully processed exactly when its index
      is a multiple of the stride in use, and only then counted, given
      results and stage times. */
  lemma ProcessCounts(cfg: Settings, s: State, f: Frame)
    requires Process(cfg, s, f).Ok?
    ensures var (t, flags) := Process(cfg, s, f).value;
      var runFull := s.frameIdx % s.ctrl.stride == 0;
      && t.frameIdx == s.frameIdx + 1
      && t.perFrameMs == s.perFrameMs + [f.frameMs]
      && |t.unknownFlags| == |s.unknownFlags| + 1 && t.unknownFlags[..|s.unknownFlags|] == s.unknownFlags
      && t.controllerLog == s.controllerLog + [(s.ctrl.stride, f.frameMs <= cfg.budgetMs)]
      && t.framesProcessed == s.framesProcessed + (if runFull then 1 else 0)
      && (runFull ==> |flags| == |f.neighbors| && |t.stageMs.detect| == |s.stageMs.detect| + 1)
      && (!runFull ==> flags == [] && t.stageMs == s.stageMs)
  {
    var (t, flags) := Process(cfg, s, f).value;
    assert (s.unknownFlags + [t.unknownFlags[|t.unknownFlags| - 1]])[..|s.unknownFlags|] == s.unknownFlags;
  }

  /** A skipped frame repeats the last fully processed frame's flag; a
      processed frame's flag says that none of its results is known. */
  lemma ProcessUnknownFlag(cfg: Settings, s: State, f: Frame)
    requires Process(cfg, s, f).Ok?
    ensures var (t, flags) := Process(cfg, s, f).value;
      && t.unknownFlags == s.unknownFlags + [t.lastUnknown]
      && (s.frameIdx % s.ctrl.stride != 0 ==> t.lastUnknown == s.lastUnknown)
      && (s.frameIdx % s.ctrl.stride == 0 ==>
            (t.lastUnknown <==> forall i :: 0 <= i < |f.neighbors| ==> IsUnknown(cfg, f.neighbors[i])))
  {
  }

  /** The window holds the latest durations, at most `window` of them, and
      the controller only moves when it is on and the window holds at least
      30 of them. */
  lemma ProcessWindow(cfg: Settings, s: State, f: Frame)
    requires Process(cfg, s, f).Ok?
    ensures var t := Process(cfg, s, f).value.0;
      && |t.durations| <= cfg.window
      && t.durations == (s.durations + [f.frameMs])[|s.durations| + 1 - |t.durations|..]
      && (!cfg.autoStride || |t.durations| < 30 ==> t.ctrl == s.ctrl)
      && (cfg.minStride <= s.ctrl.stride <= cfg.maxStride ==> cfg.minStride <= t.ctrl.stride <= cfg.maxStride)
  {
    var t := Process(cfg, s, f).value.0;
    if cfg.autoStride && |t.durations| >= 30 {
      var p95 := if t.p95.Some? then t.p95.value else 0.0;
      if cfg.minStride <= s.ctrl.stride <= cfg.maxStride {
        ControlStepInRange(cfg, s.ctrl, p95);
      }
    }
  }

  /** The window's p95 lies between its smallest and largest duration. */
  lemma ProcessP95InWindow(cfg: Settings, s: State, f: Frame)
    requires Process(cfg, s, f).Ok?
    ensures var t := Process(cfg, s, f).value.0;
      t.p95.Some? <==> |t.durations| >= 2
    ensures var t := Process(cfg, s, f).value.0;
      t.p95.Some? ==> (exists k :: 0 <= k < |t.durations| && t.durations[k] <= t.p95.value) &&
                      (exists k :: 0 <= k < |t.durations| && t.p95.value <= t.durations[k])
  {
    var t := Process(cfg, s, f).value.0;
    if |t.durations| >= 2 {
      InclusiveCutBounds(t.durations, 95);
    }
  }
}
