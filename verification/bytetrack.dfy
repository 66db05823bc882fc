/** `ByteTrackLikeTracker`: keeps track ids across frames by greedy IoU
    matching. Every (detection, stored track) pair is scored by IoU, the pairs
    are taken best first, and a pair above the threshold whose detection and
    track are both still free is matched. Unmatched detections get fresh ids;
    unmatched stored tracks are dropped. IoU is exact real division here. */
module ByteTrack {
  import opened Base
  import opened Sorting
  import opened VisionTypes

  // ---------------------------------------------------------------------------
  // Intersection over union

  function Area(b: Box): int {
    (b.x2 - b.x1) * (b.y2 - b.y1)
  }

  function OverlapW(a: Box, b: Box): int {
    Max(0, Min(a.x2, b.x2) - Max(a.x1, b.x1))
  }

  function OverlapH(a: Box, b: Box): int {
    Max(0, Min(a.y2, b.y2) - Max(a.y1, b.y1))
  }

  /** `_iou(a, b)`: zero when the boxes do not overlap or the union is empty. */
  function IoU(a: Box, b: Box): (r: real)
    ensures a.x2 <= b.x1 || b.x2 <= a.x1 || a.y2 <= b.y1 || b.y2 <= a.y1 ==> r == 0.0
  {
    var inter := OverlapW(a, b) * OverlapH(a, b);
    if inter == 0 then 0.0
    else
      var union := Area(a) + Area(b) - inter;
      if union == 0 then 0.0 else inter as real / union as real
  }

  lemma IoUSymmetric(a: Box, b: Box)
    ensures IoU(a, b) == IoU(b, a)
  {
    assert OverlapW(a, b) == OverlapW(b, a) && OverlapH(a, b) == OverlapH(b, a);
  }

  lemma MulMono(w: int, h: int, bw: int, bh: int)
    requires 0 <= w <= bw && 0 <= h <= bh
    ensures 0 <= w * h <= bw * bh
  {
    assert w * h <= bw * h;
    assert bw * h <= bw * bh;
  }

  lemma MulPos(x: real, y: real)
    requires x > 0.0 && y > 0.0
    ensures x * y > 0.0
  {
  }

  lemma PositiveFactor(a: real, y: real)
    requires y > 0.0 && a * y >= 0.0
    ensures a >= 0.0
  {
    if a < 0.0 {
      MulPos(-a, y);
    }
  }

  lemma DivAtMostOne(x: real, y: real)
    requires 0.0 < x <= y
    ensures 0.0 < x / y <= 1.0
  {
    var q := x / y;
    assert (1.0 - q) * y == y - x;
    PositiveFactor(1.0 - q, y);
  }

  /** For boxes with ordered corners IoU lies in `[0, 1]`. */
  lemma IoUUnit(a: Box, b: Box)
    requires WellFormed(a) && WellFormed(b)
    ensures 0.0 <= IoU(a, b) <= 1.0
  {
    var w := OverlapW(a, b);
    var h := OverlapH(a, b);
    MulMono(w, h, a.x2 - a.x1, a.y2 - a.y1);
    MulMono(w, h, b.x2 - b.x1, b.y2 - b.y1);
    var inter := w * h;
    if inter != 0 {
      var union := Area(a) + Area(b) - inter;
      assert inter <= union;
      DivAtMostOne(inter as real, union as real);
    }
  }

  /** A box with positive area overlaps itself completely. */
  lemma IoUSelf(a: Box)
    requires WellFormed(a) && Area(a) > 0
    ensures IoU(a, a) == 1.0
  {
    assert OverlapW(a, a) == a.x2 - a.x1 && OverlapH(a, a) == a.y2 - a.y1;
    var x := Area(a) as real;
    assert x / x == 1.0;
  }

  // ---------------------------------------------------------------------------
  // The stored tracks: a dict from id to box, keys in insertion order

  datatype Dict = Dict(keys: seq<int>, boxes: map<int, Box>)

  predicate DictOk(t: Dict) {
    && Distinct(t.keys)
    && (forall k :: k in t.boxes ==> k in t.keys)
    && (forall j :: 0 <= j < |t.keys| ==> t.keys[j] in t.boxes)
  }

  /** `tracks[k] = b`: a new key goes to the end, an old one keeps its place. */
  function Put(t: Dict, k: int, b: Box): (r: Dict)
    ensures r.boxes == t.boxes[k := b]
    ensures DictOk(t) ==> DictOk(r)
  {
    Dict(if k in t.boxes then t.keys else t.keys + [k], t.boxes[k := b])
  }

  function Remove(s: seq<int>, k: int): (r: seq<int>)
    ensures forall x :: x in r <==> x in s && x != k
    ensures Distinct(s) ==> Distinct(r)
    decreases |s|
  {
    if |s| == 0 then []
    else if s[|s| - 1] == k then Remove(s[..|s| - 1], k)
    else
      var p := Remove(s[..|s| - 1], k);
      assert forall x :: x in s[..|s| - 1] ==> x in s;
      assert Distinct(s) ==> s[|s| - 1] !in s[..|s| - 1];
      p + [s[|s| - 1]]
  }

  /** `tracks.pop(k, None)`. */
  function PopKey(t: Dict, k: int): (r: Dict)
    ensures r.boxes == t.boxes - {k}
    ensures DictOk(t) ==> DictOk(r)
  {
    var keys := Remove(t.keys, k);
    assert DictOk(t) ==> forall j :: 0 <= j < |keys| ==> keys[j] in t.keys && keys[j] in t.boxes - {k} by {
      if DictOk(t) {
        forall j | 0 <= j < |keys| ensures keys[j] in t.keys && keys[j] in t.boxes - {k} {
          assert keys[j] in keys;
          var i :| 0 <= i < |t.keys| && t.keys[i] == keys[j];
        }
      }
    }
    Dict(keys, t.boxes - {k})
  }

  // ---------------------------------------------------------------------------
  // Tracker state

  datatype State = State(threshold: real, nextId: int, tracks: Dict)

  /** Every stored id was handed out before `nextId`. */
  predicate Valid(s: State) {
    DictOk(s.tracks) && forall k :: k in s.tracks.keys ==> k < s.nextId
  }

  /** `ByteTrackLikeTracker(iou_threshold)`: ids start at 1, nothing stored. */
  function Create(threshold: real): (s: State)
    ensures Valid(s) && s.threshold == threshold && s.nextId == 1 && s.tracks.keys == [] && s.tracks.boxes == map[]
  {
    State(threshold, 1, Dict([], map[]))
  }

  /** The default threshold is 0.3. */
  function CreateDefault(): (s: State)
    ensures s == Create(0.3)
  {
    Create(0.3)
  }

  // ---------------------------------------------------------------------------
  // Candidate pairs, best first

  /** One `(iou, det_idx, track_id)` tuple. */
  datatype Cand = Cand(iou: real, det: nat, tid: int)

  /** `a` comes no later than `b` in `ious.sort(reverse=True)`: tuples compare
      by IoU, then detection index, then track id, all descending. */
  predicate Before(a: Cand, b: Cand) {
    a.iou > b.iou || (a.iou == b.iou && (a.det > b.det || (a.det == b.det && a.tid >= b.tid)))
  }

  function Descending(): (Cand, Cand) -> bool {
    (a: Cand, b: Cand) => Before(a, b)
  }

  lemma DescendingOrders()
    ensures TotalPreorder(Descending()) && Antisymmetric(Descending())
  {
  }

  function Row(d: nat, b: Box, t: Dict): seq<Cand>
    requires DictOk(t)
  {
    seq(|t.keys|, j requires 0 <= j < |t.keys| => Cand(IoU(b, t.boxes[t.keys[j]]), d, t.keys[j]))
  }

  /** Every detection paired with every stored track. */
  function Candidates(dets: seq<Detection>, t: Dict): seq<Cand>
    requires DictOk(t)
    decreases |dets|
  {
    if |dets| == 0 then []
    else Candidates(dets[..|dets| - 1], t) + Row(|dets| - 1, dets[|dets| - 1].bbox, t)
  }

  /** The candidates are exactly the pairs of a detection and a stored track,
      scored by their IoU. */
  lemma {:induction false} CandidatesMember(dets: seq<Detection>, t: Dict, c: Cand)
    requires DictOk(t)
    ensures c in Candidates(dets, t) <==>
      c.det < |dets| && c.tid in t.boxes && c.iou == IoU(dets[c.det].bbox, t.boxes[c.tid])
    decreases |dets|
  {
    if |dets| > 0 {
      var n := |dets| - 1;
      var init := dets[..n];
      var row := Row(n, dets[n].bbox, t);
      CandidatesMember(init, t, c);
      if c.det < n {
        assert init[c.det] == dets[c.det];
        assert c !in row;
      } else if c.det == n && c.tid in t.boxes && c.iou == IoU(dets[c.det].bbox, t.boxes[c.tid]) {
        var j :| 0 <= j < |t.keys| && t.keys[j] == c.tid;
        assert row[j] == c;
      }
    }
  }

  // ---------------------------------------------------------------------------
  // The greedy matching loop

  /** Loop state: detections and tracks still free, and the matches so far. */
  datatype Greedy = Greedy(freeDets: set<nat>, freeTids: set<int>, matches: seq<Cand>)

  /** The matching loop over the sorted pairs: it stops at the first pair
      below the threshold and matches a pair whose two ends are both free. */
  function Match(cs: seq<Cand>, thr: real, g: Greedy): Greedy
    decreases |cs|
  {
    if |cs| == 0 || cs[0].iou < thr then g
    else
      var c := cs[0];
      if c.det in g.freeDets && c.tid in g.freeTids then
        Match(cs[1..], thr, Greedy(g.freeDets - {c.det}, g.freeTids - {c.tid}, g.matches + [c]))
      else Match(cs[1..], thr, g)
  }

  function DetsOf(ms: seq<Cand>): set<nat> {
    set m | m in ms :: m.det
  }

  function TidsOf(ms: seq<Cand>): set<int> {
    set m | m in ms :: m.tid
  }

  /** No detection and no track is matched twice. */
  predicate OneToOne(ms: seq<Cand>) {
    forall i, j :: 0 <= i < j < |ms| ==> ms[i].det != ms[j].det && ms[i].tid != ms[j].tid
  }

  predicate Consistent(g: Greedy) {
    g.freeDets !! DetsOf(g.matches) && g.freeTids !! TidsOf(g.matches) && OneToOne(g.matches)
  }

  lemma AddMatch(g: Greedy, c: Cand)
    requires Consistent(g) && c.det in g.freeDets && c.tid in g.freeTids
    ensures var g' := Greedy(g.freeDets - {c.det}, g.freeTids - {c.tid}, g.matches + [c]);
      && Consistent(g')
      && g'.freeDets + DetsOf(g'.matches) == g.freeDets + DetsOf(g.matches)
      && g'.freeTids + TidsOf(g'.matches) == g.freeTids + TidsOf(g.matches)
  {
    var ms := g.matches + [c];
    assert DetsOf(ms) == DetsOf(g.matches) + {c.det};
    assert TidsOf(ms) == TidsOf(g.matches) + {c.tid};
    forall i, j | 0 <= i < j < |ms|
      ensures ms[i].det != ms[j].det && ms[i].tid != ms[j].tid
    {
      if j == |g.matches| {
        assert ms[i] in g.matches;
      }
    }
  }

  /** The loop keeps free and matched apart, matches one-to-one, only ever
      appends, and appends only pairs at or above the threshold. */
  lemma {:induction false} MatchFrame(cs: seq<Cand>, thr: real, g: Greedy)
    requires Consistent(g)
    ensures var r := Match(cs, thr, g);
      && Consistent(r)
      && r.freeDets + DetsOf(r.matches) == g.freeDets + DetsOf(g.matches)
      && r.freeTids + TidsOf(r.matches) == g.freeTids + TidsOf(g.matches)
      && |g.matches| <= |r.matches| && r.matches[..|g.matches|] == g.matches
      && forall i :: |g.matches| <= i < |r.matches| ==> r.matches[i] in cs && r.matches[i].iou >= thr
    decreases |cs|
  {
    if |cs| > 0 && cs[0].iou >= thr {
      var c := cs[0];
      if c.det in g.freeDets && c.tid in g.freeTids {
        var g' := Greedy(g.freeDets - {c.det}, g.freeTids - {c.tid}, g.matches + [c]);
        AddMatch(g, c);
        MatchFrame(cs[1..], thr, g');
        var r := Match(cs, thr, g);
        assert r.matches[..|g'.matches|] == g'.matches;
        assert r.matches[..|g.matches|] == g'.matches[..|g.matches|];
        forall i | |g.matches| <= i < |r.matches|
          ensures r.matches[i] in cs && r.matches[i].iou >= thr
        {
          if i == |g.matches| {
            assert r.matches[i] == g'.matches[i] == c;
          }
        }
      } else {
        MatchFrame(cs[1..], thr, g);
      }
    }
  }

  /** Greedy, best first: every pair at or above the threshold meets a match
      that shares its detection or its track and sorts no later than it. */
  lemma {:induction false} MatchGreedy(cs: seq<Cand>, thr: real, g: Greedy)
    requires SortedBy(cs, Descending())
    requires forall m, c :: m in g.matches && c in cs ==> Before(m, c)
    requires forall c :: c in cs ==> c.det in g.freeDets + DetsOf(g.matches)
    requires forall c :: c in cs ==> c.tid in g.freeTids + TidsOf(g.matches)
    ensures forall m :: m in g.matches ==> m in Match(cs, thr, g).matches
    ensures forall c :: c in cs && c.iou >= thr ==>
      exists m :: m in Match(cs, thr, g).matches && (m.det == c.det || m.tid == c.tid) && Before(m, c)
    decreases |cs|
  {
    if |cs| > 0 {
      var c0 := cs[0];
      var rest := cs[1..];
      assert forall c :: c in cs ==> c == c0 || c in rest;
      assert forall c :: c in rest ==> Before(c0, c) by {
        forall c | c in rest ensures Before(c0, c) {
          var k :| 0 <= k < |rest| && rest[k] == c;
          assert Descending()(cs[0], cs[k + 1]);
        }
      }
      assert SortedBy(rest, Descending()) by {
        forall i, j | 0 <= i < j < |rest| ensures Before(rest[i], rest[j]) {
          assert Descending()(cs[i + 1], cs[j + 1]);
        }
      }
      if c0.iou >= thr {
        var both := c0.det in g.freeDets && c0.tid in g.freeTids;
        var g' := if both then Greedy(g.freeDets - {c0.det}, g.freeTids - {c0.tid}, g.matches + [c0]) else g;
        assert DetsOf(g'.matches) == DetsOf(g.matches) + (if both then {c0.det} else {});
        assert TidsOf(g'.matches) == TidsOf(g.matches) + (if both then {c0.tid} else {});
        MatchGreedy(rest, thr, g');
        var r := Match(cs, thr, g);
        assert r == Match(rest, thr, g');
        if !both {
          if c0.det !in g.freeDets {
            var m :| m in g.matches && m.det == c0.det;
            assert m in r.matches && Before(m, c0);
          } else {
            var m :| m in g.matches && m.tid == c0.tid;
            assert m in r.matches && Before(m, c0);
          }
        } else {
          assert c0 in g'.matches;
        }
      }
    }
  }

  // ---------------------------------------------------------------------------
  // The matching phase of `update`

  /** `set(range(n))`. */
  function AllDets(n: nat): (r: set<nat>)
    ensures forall d: nat :: d in r <==> d < n
  {
    if n == 0 then {} else AllDets(n - 1) + {n - 1}
  }

  /** Pairs sorted best first and matched greedily, starting with every
      detection and every stored track free. */
  function Matching(s: State, dets: seq<Detection>): Greedy
    requires DictOk(s.tracks)
  {
    var cs := Sort(Candidates(dets, s.tracks), Descending());
    Match(cs, s.threshold, Greedy(AllDets(|dets|), s.tracks.boxes.Keys, []))
  }

  /** Every detection and every stored track ends up either free or matched
      exactly once. */
  lemma MatchingPartition(s: State, dets: seq<Detection>)
    requires DictOk(s.tracks)
    ensures var g := Matching(s, dets);
      && Consistent(g)
      && g.freeDets + DetsOf(g.matches) == AllDets(|dets|)
      && g.freeTids + TidsOf(g.matches) == s.tracks.boxes.Keys
  {
    var cs := Sort(Candidates(dets, s.tracks), Descending());
    MatchFrame(cs, s.threshold, Greedy(AllDets(|dets|), s.tracks.boxes.Keys, []));
  }

  /** Each match pairs a detection with a stored track at or above the
      threshold, scored by their IoU. */
  lemma MatchingPairs(s: State, dets: seq<Detection>)
    requires DictOk(s.tracks)
    ensures forall m :: m in Matching(s, dets).matches ==>
      && m.det < |dets| && m.tid in s.tracks.boxes
      && m.iou == IoU(dets[m.det].bbox, s.tracks.boxes[m.tid]) && m.iou >= s.threshold
  {
    var cands := Candidates(dets, s.tracks);
    var cs := Sort(cands, Descending());
    var g0 := Greedy(AllDets(|dets|), s.tracks.boxes.Keys, []);
    MatchFrame(cs, s.threshold, g0);
    var g := Matching(s, dets);
    forall m | m in g.matches
      ensures m.det < |dets| && m.tid in s.tracks.boxes
      ensures m.iou == IoU(dets[m.det].bbox, s.tracks.boxes[m.tid]) && m.iou >= s.threshold
    {
      var i :| 0 <= i < |g.matches| && g.matches[i] == m;
      assert m in multiset(cs);
      CandidatesMember(dets, s.tracks, m);
    }
  }

  /** Greedy, best first, over the detections and stored tracks: a pair at
      or above the threshold meets a match sharing its detection or its
      track that sorts no later than it. */
  lemma MatchingGreedy(s: State, dets: seq<Detection>, d: nat, k: int)
    requires DictOk(s.tracks)
    requires d < |dets| && k in s.tracks.boxes && IoU(dets[d].bbox, s.tracks.boxes[k]) >= s.threshold
    ensures (exists m :: m in Matching(s, dets).matches && (m.det == d || m.tid == k) && Before(m, Cand(IoU(dets[d].bbox, s.tracks.boxes[k]), d, k)))
  {
    var cands := Candidates(dets, s.tracks);
    var cs := Sort(cands, Descending());
    var g0 := Greedy(AllDets(|dets|), s.tracks.boxes.Keys, []);
    DescendingOrders();
    SortSorted(cands, Descending());
    forall c | c in cs
      ensures c.det in g0.freeDets + DetsOf(g0.matches) && c.tid in g0.freeTids + TidsOf(g0.matches)
    {
      assert c in multiset(cands);
      CandidatesMember(dets, s.tracks, c);
    }
    MatchGreedy(cs, s.threshold, g0);
    var c := Cand(IoU(dets[d].bbox, s.tracks.boxes[k]), d, k);
    CandidatesMember(dets, s.tracks, c);
    assert c in multiset(cs);
  }

  // ---------------------------------------------------------------------------
  // Ids for the detections

  /** `{det_idx: track_id for det_idx, track_id in matches}`. */
  function MatchMap(ms: seq<Cand>): map<nat, int>
    decreases |ms|
  {
    if |ms| == 0 then map[] else MatchMap(ms[..|ms| - 1])[ms[|ms| - 1].det := ms[|ms| - 1].tid]
  }

  lemma {:induction false} MatchMapSpec(ms: seq<Cand>)
    requires OneToOne(ms)
    ensures MatchMap(ms).Keys == DetsOf(ms)
    ensures forall i :: 0 <= i < |ms| ==> MatchMap(ms)[ms[i].det] == ms[i].tid
    decreases |ms|
  {
    if |ms| > 0 {
      var init := ms[..|ms| - 1];
      MatchMapSpec(init);
      assert DetsOf(ms) == DetsOf(init) + {ms[|ms| - 1].det};
    }
  }

  /** Loop state of the fresh-id loop: `det_to_id`, `_next_id`, `_tracks`. */
  datatype Fresh = Fresh(ids: map<nat, int>, next: int, tracks: Dict)

  /** The loop over the unmatched detections in ascending index order: each
      takes `_next_id`, which then moves on, and is stored under it. */
  function AssignFresh(dets: seq<Detection>, n: nat, free: set<nat>, f: Fresh): Fresh
    requires n <= |dets|
    decreases n
  {
    if n == 0 then f
    else
      var p := AssignFresh(dets, n - 1, free, f);
      if n - 1 in free then Fresh(p.ids[n - 1 := p.next], p.next + 1, Put(p.tracks, p.next, dets[n - 1].bbox))
      else p
  }

  /** How many of the indices below `n` are free. */
  function FreeBelow(free: set<nat>, n: nat): nat
    decreases n
  {
    if n == 0 then 0 else FreeBelow(free, n - 1) + (if n - 1 in free then 1 else 0)
  }

  lemma {:induction false} FreeBelowGrows(free: set<nat>, d: nat, e: nat)
    requires d < e && d in free
    ensures FreeBelow(free, d) < FreeBelow(free, e)
    decreases e
  {
    if d < e - 1 {
      FreeBelowGrows(free, d, e - 1);
    }
  }

  /** The ids the fresh-id loop hands out. */
  function FreshSet(free: set<nat>, n: nat, next: int): set<int> {
    set d | d in AllDets(n) && d in free :: next + FreeBelow(free, d)
  }

  /** The fresh-id loop moves `_next_id` on once per free detection. */
  lemma {:induction false} AssignFreshNext(dets: seq<Detection>, n: nat, free: set<nat>, f: Fresh)
    requires n <= |dets|
    ensures AssignFresh(dets, n, free, f).next == f.next + FreeBelow(free, n)
    decreases n
  {
    if n > 0 {
      AssignFreshNext(dets, n - 1, free, f);
    }
  }

  /** Fresh ids are consecutive from `_next_id`, in detection order; the
      entries of the matched detections stay as they were. */
  lemma {:induction false} AssignFreshIds(dets: seq<Detection>, n: nat, free: set<nat>, f: Fresh)
    requires n <= |dets|
    ensures var r := AssignFresh(dets, n, free, f);
      && (forall d :: d in r.ids <==> d in f.ids || (d < n && d in free))
      && (forall d :: d < n && d in free ==> r.ids[d] == f.next + FreeBelow(free, d))
      && (forall d :: d in f.ids && !(d < n && d in free) ==> r.ids[d] == f.ids[d])
    decreases n
  {
    if n > 0 {
      AssignFreshIds(dets, n - 1, free, f);
      AssignFreshNext(dets, n - 1, free, f);
    }
  }

  /** The loop adds exactly the fresh ids to the stored keys. */
  lemma {:induction false} AssignFreshKeys(dets: seq<Detection>, n: nat, free: set<nat>, f: Fresh)
    requires n <= |dets|
    ensures AssignFresh(dets, n, free, f).tracks.boxes.Keys == f.tracks.boxes.Keys + FreshSet(free, n, f.next)
    ensures DictOk(f.tracks) ==> DictOk(AssignFresh(dets, n, free, f).tracks)
    decreases n
  {
    if n > 0 {
      AssignFreshKeys(dets, n - 1, free, f);
      AssignFreshNext(dets, n - 1, free, f);
      if n - 1 in free {
        assert FreshSet(free, n, f.next) == FreshSet(free, n - 1, f.next) + {f.next + FreeBelow(free, n - 1)};
      } else {
        assert FreshSet(free, n, f.next) == FreshSet(free, n - 1, f.next);
      }
    }
  }

  /** The loop stores each fresh id with its detection's box and leaves the
      entries below `_next_id` alone. */
  lemma {:induction false} AssignFreshBoxes(dets: seq<Detection>, n: nat, free: set<nat>, f: Fresh)
    requires n <= |dets|
    ensures var r := AssignFresh(dets, n, free, f);
      && (forall d :: d < n && d in free ==>
            f.next + FreeBelow(free, d) in r.tracks.boxes && r.tracks.boxes[f.next + FreeBelow(free, d)] == dets[d].bbox)
      && (forall k :: k in f.tracks.boxes && k < f.next ==> k in r.tracks.boxes && r.tracks.boxes[k] == f.tracks.boxes[k])
    decreases n
  {
    if n > 0 {
      AssignFreshBoxes(dets, n - 1, free, f);
      AssignFreshNext(dets, n - 1, free, f);
      var p := AssignFresh(dets, n - 1, free, f);
      if n - 1 in free {
        var b := dets[n - 1].bbox;
        var boxes := p.tracks.boxes[p.next := b];
        assert AssignFresh(dets, n, free, f).tracks.boxes == boxes;
        forall d | d < n && d in free
          ensures f.next + FreeBelow(free, d) in boxes && boxes[f.next + FreeBelow(free, d)] == dets[d].bbox
        {
          if d < n - 1 {
            FreeBelowGrows(free, d, n - 1);
          }
        }
      } else {
        assert AssignFresh(dets, n, free, f) == p;
      }
    }
  }

  // ---------------------------------------------------------------------------
  // The dict updates of `update`

  /** `self._tracks[track_id] = detections[det_idx].bbox` for each match. */
  function PutMatches(t: Dict, ms: seq<Cand>, dets: seq<Detection>): (r: Dict)
    requires forall m :: m in ms ==> m.det < |dets|
    ensures DictOk(t) ==> DictOk(r)
    decreases |ms|
  {
    if |ms| == 0 then t
    else
      var m := ms[|ms| - 1];
      assert forall x :: x in ms[..|ms| - 1] ==> x in ms;
      Put(PutMatches(t, ms[..|ms| - 1], dets), m.tid, dets[m.det].bbox)
  }

  lemma {:induction false} PutMatchesKeys(t: Dict, ms: seq<Cand>, dets: seq<Detection>)
    requires forall m :: m in ms ==> m.det < |dets|
    ensures PutMatches(t, ms, dets).boxes.Keys == t.boxes.Keys + TidsOf(ms)
    decreases |ms|
  {
    if |ms| > 0 {
      var init := ms[..|ms| - 1];
      assert forall x :: x in init ==> x in ms;
      PutMatchesKeys(t, init, dets);
      assert TidsOf(ms) == TidsOf(init) + {ms[|ms| - 1].tid};
    }
  }

  /** Each matched track now holds its detection's box; the other entries
      are untouched. */
  lemma {:induction false} PutMatchesValues(t: Dict, ms: seq<Cand>, dets: seq<Detection>)
    requires forall m :: m in ms ==> m.det < |dets|
    requires OneToOne(ms)
    ensures forall i :: 0 <= i < |ms| ==>
      ms[i].tid in PutMatches(t, ms, dets).boxes && PutMatches(t, ms, dets).boxes[ms[i].tid] == dets[ms[i].det].bbox
    ensures forall k :: k in t.boxes && k !in TidsOf(ms) ==>
      k in PutMatches(t, ms, dets).boxes && PutMatches(t, ms, dets).boxes[k] == t.boxes[k]
    decreases |ms|
  {
    if |ms| > 0 {
      var init := ms[..|ms| - 1];
      var last := ms[|ms| - 1];
      assert forall x :: x in init ==> x in ms;
      PutMatchesValues(t, init, dets);
      var p := PutMatches(t, init, dets);
      assert PutMatches(t, ms, dets).boxes == p.boxes[last.tid := dets[last.det].bbox];
      forall i | 0 <= i < |ms| - 1
        ensures ms[i].tid != last.tid && ms[i] == init[i]
      {
      }
      forall k | k in t.boxes && k !in TidsOf(ms)
        ensures k != last.tid && k !in TidsOf(init)
      {
        assert last in ms;
      }
    }
  }

  /** The stored ids left free by the matching: `track_ids` after the loop. */
  function Kept(keys: seq<int>, free: set<int>): (r: seq<int>)
    ensures forall x :: x in r <==> x in keys && x in free
    decreases |keys|
  {
    if |keys| == 0 then []
    else
      var p := Kept(keys[..|keys| - 1], free);
      assert forall x :: x in keys <==> x in keys[..|keys| - 1] || x == keys[|keys| - 1];
      if keys[|keys| - 1] in free then p + [keys[|keys| - 1]] else p
  }

  /** `self._tracks.pop(track_id, None)` for each of `ks`. */
  function PopAll(t: Dict, ks: seq<int>): (r: Dict)
    ensures r.boxes == t.boxes - (set k | k in ks)
    ensures DictOk(t) ==> DictOk(r)
    decreases |ks|
  {
    if |ks| == 0 then t
    else
      var init := ks[..|ks| - 1];
      var p := PopAll(t, init);
      assert (set k | k in ks) == (set k | k in init) + {ks[|ks| - 1]};
      PopKey(p, ks[|ks| - 1])
  }

  // ---------------------------------------------------------------------------
  // `update`

  /** The matching loop and the fresh-id loop: `det_to_id`, the new
      `_next_id` and `_tracks` before the unmatched tracks are popped. */
  function Assign(s: State, dets: seq<Detection>): (f: Fresh)
    requires Valid(s)
    ensures forall i :: 0 <= i < |dets| ==> i in f.ids
    ensures f.next >= s.nextId
  {
    var g := Matching(s, dets);
    MatchingPartition(s, dets);
    MatchingPairs(s, dets);
    MatchMapSpec(g.matches);
    var f0 := Fresh(MatchMap(g.matches), s.nextId, PutMatches(s.tracks, g.matches, dets));
    AssignFreshIds(dets, |dets|, g.freeDets, f0);
    AssignFreshNext(dets, |dets|, g.freeDets, f0);
    AssignFresh(dets, |dets|, g.freeDets, f0)
  }

  /** `update(detections)`: one track per detection, in detection order. */
  function Update(s: State, dets: seq<Detection>): (r: (State, seq<Track>))
    requires Valid(s)
    ensures |r.1| == |dets|
    ensures forall i :: 0 <= i < |dets| ==>
      r.1[i].bbox == dets[i].bbox && r.1[i].score == dets[i].score && r.1[i].cls == dets[i].cls
    ensures r.0.threshold == s.threshold && r.0.nextId >= s.nextId
  {
    var f := Assign(s, dets);
    var t3 := PopAll(f.tracks, Kept(s.tracks.keys, Matching(s, dets).freeTids));
    var out := seq(|dets|, i requires 0 <= i < |dets| => Track(f.ids[i], dets[i].bbox, dets[i].score, dets[i].cls));
    (State(s.threshold, f.next, t3), out)
  }

  // ---------------------------------------------------------------------------
  // Properties of `update`

  /** A matched detection keeps its stored track's id. */
  lemma MatchedId(s: State, dets: seq<Detection>, j: nat)
    requires Valid(s) && j < |Matching(s, dets).matches|
    ensures var m := Matching(s, dets).matches[j];
      m.det < |dets| && Update(s, dets).1[m.det].trackId == m.tid
  {
    var g := Matching(s, dets);
    MatchingPartition(s, dets);
    MatchingPairs(s, dets);
    MatchMapSpec(g.matches);
    var f0 := Fresh(MatchMap(g.matches), s.nextId, PutMatches(s.tracks, g.matches, dets));
    AssignFreshIds(dets, |dets|, g.freeDets, f0);
    var m := g.matches[j];
    assert m in g.matches;
    assert m.det in DetsOf(g.matches);
  }

  /** An unmatched detection gets `_next_id` plus the number of unmatched
      detections before it. */
  lemma FreshId(s: State, dets: seq<Detection>, i: nat)
    requires Valid(s) && i < |dets| && i in Matching(s, dets).freeDets
    ensures Update(s, dets).1[i].trackId == s.nextId + FreeBelow(Matching(s, dets).freeDets, i)
    ensures Update(s, dets).0.nextId == s.nextId + FreeBelow(Matching(s, dets).freeDets, |dets|)
  {
    var g := Matching(s, dets);
    MatchingPairs(s, dets);
    var f0 := Fresh(MatchMap(g.matches), s.nextId, PutMatches(s.tracks, g.matches, dets));
    AssignFreshIds(dets, |dets|, g.freeDets, f0);
    AssignFreshNext(dets, |dets|, g.freeDets, f0);
  }

  /** Every detection is either unmatched or the detection of a match. */
  lemma FreeOrMatched(s: State, dets: seq<Detection>, i: nat)
    requires Valid(s) && i < |dets|
    ensures i in Matching(s, dets).freeDets ||
      exists j :: 0 <= j < |Matching(s, dets).matches| && Matching(s, dets).matches[j].det == i
  {
    MatchingPartition(s, dets);
    Covered(Matching(s, dets), |dets|, i);
  }

  lemma Covered(g: Greedy, n: nat, i: nat)
    requires g.freeDets + DetsOf(g.matches) == AllDets(n) && i < n
    ensures i in g.freeDets || exists j :: 0 <= j < |g.matches| && g.matches[j].det == i
  {
    assert i in AllDets(n);
    if i !in g.freeDets {
      var m :| m in g.matches && m.det == i;
      var j :| 0 <= j < |g.matches| && g.matches[j] == m;
    }
  }

  lemma DifferentMatches(ms: seq<Cand>, a: nat, b: nat)
    requires OneToOne(ms) && a < |ms| && b < |ms| && a != b
    ensures ms[a].det != ms[b].det && ms[a].tid != ms[b].tid
  {
  }

  /** The new counter: one step per unmatched detection. */
  lemma NextIdMoves(s: State, dets: seq<Detection>)
    requires Valid(s)
    ensures Update(s, dets).0.nextId == s.nextId + FreeBelow(Matching(s, dets).freeDets, |dets|)
  {
    var g := Matching(s, dets);
    MatchingPairs(s, dets);
    var f0 := Fresh(MatchMap(g.matches), s.nextId, PutMatches(s.tracks, g.matches, dets));
    AssignFreshNext(dets, |dets|, g.freeDets, f0);
  }

  /** Each returned id is either a stored track's id whose box overlaps the
      detection at or above the threshold, or a fresh id from the counter. */
  lemma UpdateIdSource(s: State, dets: seq<Detection>, i: nat)
    requires Valid(s) && i < |dets|
    ensures var r := Update(s, dets); var id := r.1[i].trackId;
      || (id in s.tracks.boxes && id < s.nextId && IoU(dets[i].bbox, s.tracks.boxes[id]) >= s.threshold)
      || (i in Matching(s, dets).freeDets && s.nextId <= id < r.0.nextId)
  {
    var g := Matching(s, dets);
    FreeOrMatched(s, dets, i);
    NextIdMoves(s, dets);
    if i in g.freeDets {
      FreshId(s, dets, i);
      FreeBelowGrows(g.freeDets, i, |dets|);
    } else {
      var j :| 0 <= j < |g.matches| && g.matches[j].det == i;
      MatchedId(s, dets, j);
      MatchingPairs(s, dets);
      assert g.matches[j] in g.matches;
      StoredBelowNext(s, g.matches[j].tid);
    }
  }

  lemma StoredBelowNext(s: State, k: int)
    requires Valid(s) && k in s.tracks.boxes
    ensures k < s.nextId
  {
  }

  /** Ids within one frame are pairwise distinct. */
  lemma UpdateDistinct(s: State, dets: seq<Detection>)
    requires Valid(s)
    ensures forall i, j :: 0 <= i < j < |dets| ==> Update(s, dets).1[i].trackId != Update(s, dets).1[j].trackId
  {
    var g := Matching(s, dets);
    var out := Update(s, dets).1;
    MatchingPartition(s, dets);
    forall i, j | 0 <= i < j < |dets|
      ensures out[i].trackId != out[j].trackId
    {
      UpdateIdSource(s, dets, i);
      UpdateIdSource(s, dets, j);
      if i in g.freeDets && j in g.freeDets {
        FreshId(s, dets, i);
        FreshId(s, dets, j);
        FreeBelowGrows(g.freeDets, i, j);
      } else if i !in g.freeDets && j !in g.freeDets {
        FreeOrMatched(s, dets, i);
        FreeOrMatched(s, dets, j);
        var a :| 0 <= a < |g.matches| && g.matches[a].det == i;
        var b :| 0 <= b < |g.matches| && g.matches[b].det == j;
        MatchedId(s, dets, a);
        MatchedId(s, dets, b);
        DifferentMatches(g.matches, a, b);
      } else if i in g.freeDets {
        FreshId(s, dets, i);
      } else {
        FreshId(s, dets, j);
      }
    }
  }

  /** Greedy, best first, stated on the output: for a detection and a stored
      track at or above the threshold, some detection (this one, or the one
      that took the track) kept a stored id by a pair sorting no later. */
  lemma UpdateGreedy(s: State, dets: seq<Detection>, d: nat, k: int)
    requires Valid(s)
    requires d < |dets| && k in s.tracks.boxes && IoU(dets[d].bbox, s.tracks.boxes[k]) >= s.threshold
    ensures var out := Update(s, dets).1;
      exists e :: 0 <= e < |dets| && (e == d || out[e].trackId == k) && out[e].trackId in s.tracks.boxes &&
        Before(Cand(IoU(dets[e].bbox, s.tracks.boxes[out[e].trackId]), e, out[e].trackId), Cand(IoU(dets[d].bbox, s.tracks.boxes[k]), d, k))
  {
    var g := Matching(s, dets);
    MatchingGreedy(s, dets, d, k);
    MatchingPairs(s, dets);
    var m :| m in g.matches && (m.det == d || m.tid == k) && Before(m, Cand(IoU(dets[d].bbox, s.tracks.boxes[k]), d, k));
    var j :| 0 <= j < |g.matches| && g.matches[j] == m;
    MatchedId(s, dets, j);
  }

  /** The tracker stores each returned id with the box it was returned
      with. */
  lemma UpdateStoresReturned(s: State, dets: seq<Detection>, i: nat)
    requires Valid(s) && i < |dets|
    ensures var r := Update(s, dets);
      r.1[i].trackId in r.0.tracks.boxes && r.0.tracks.boxes[r.1[i].trackId] == dets[i].bbox
  {
    var g := Matching(s, dets);
    var r := Update(s, dets);
    MatchingPairs(s, dets);
    var t1 := PutMatches(s.tracks, g.matches, dets);
    var f0 := Fresh(MatchMap(g.matches), s.nextId, t1);
    var f := AssignFresh(dets, |dets|, g.freeDets, f0);
    var popped := Kept(s.tracks.keys, g.freeTids);
    assert r.0.tracks.boxes == f.tracks.boxes - (set k | k in popped);
    var id := r.1[i].trackId;
    FreeOrMatched(s, dets, i);
    if i in g.freeDets {
      FreshId(s, dets, i);
      AssignFreshBoxes(dets, |dets|, g.freeDets, f0);
      if id in popped {
        StoredBelowNext(s, id);
      }
    } else {
      MatchingPartition(s, dets);
      var j :| 0 <= j < |g.matches| && g.matches[j].det == i;
      var m := g.matches[j];
      MatchedId(s, dets, j);
      assert m in g.matches;
      StoredBelowNext(s, m.tid);
      assert m.tid in TidsOf(g.matches);
      PutMatchesValues(s.tracks, g.matches, dets);
      assert t1.boxes[m.tid] == dets[i].bbox;
      AssignFreshBoxes(dets, |dets|, g.freeDets, f0);
    }
  }

  /** And it stores nothing else: every stored id was returned. */
  lemma UpdateStoresOnlyReturned(s: State, dets: seq<Detection>, k: int)
    requires Valid(s) && k in Update(s, dets).0.tracks.boxes
    ensures exists i :: 0 <= i < |dets| && Update(s, dets).1[i].trackId == k
  {
    var g := Matching(s, dets);
    UpdateKeysSource(s, dets, k);
    if k in FreshSet(g.freeDets, |dets|, s.nextId) {
      var d :| d in AllDets(|dets|) && d in g.freeDets && k == s.nextId + FreeBelow(g.freeDets, d);
      FreshId(s, dets, d);
    } else {
      MatchedTidReturned(s, dets, k);
    }
  }

  /** A stored id is either fresh or the id of a matched track. */
  lemma UpdateKeysSource(s: State, dets: seq<Detection>, k: int)
    requires Valid(s) && k in Update(s, dets).0.tracks.boxes
    ensures k in FreshSet(Matching(s, dets).freeDets, |dets|, s.nextId) || k in TidsOf(Matching(s, dets).matches)
  {
    var g := Matching(s, dets);
    var r := Update(s, dets);
    MatchingPartition(s, dets);
    MatchingPairs(s, dets);
    var t1 := PutMatches(s.tracks, g.matches, dets);
    var f0 := Fresh(MatchMap(g.matches), s.nextId, t1);
    var f := AssignFresh(dets, |dets|, g.freeDets, f0);
    var popped := Kept(s.tracks.keys, g.freeTids);
    assert r.0.tracks.boxes == f.tracks.boxes - (set k | k in popped);
    AssignFreshKeys(dets, |dets|, g.freeDets, f0);
    PutMatchesKeys(s.tracks, g.matches, dets);
    assert k in f.tracks.boxes && k !in popped;
    if k !in FreshSet(g.freeDets, |dets|, s.nextId) {
      assert k in s.tracks.boxes.Keys + TidsOf(g.matches);
      assert k !in g.freeTids by {
        if k in s.tracks.boxes {
          var j :| 0 <= j < |s.tracks.keys| && s.tracks.keys[j] == k;
        }
      }
    }
  }

  /** The id of a matched track is returned for its detection. */
  lemma MatchedTidReturned(s: State, dets: seq<Detection>, k: int)
    requires Valid(s) && k in TidsOf(Matching(s, dets).matches)
    ensures exists i :: 0 <= i < |dets| && Update(s, dets).1[i].trackId == k
  {
    var g := Matching(s, dets);
    var m :| m in g.matches && m.tid == k;
    var j :| 0 <= j < |g.matches| && g.matches[j] == m;
    MatchedId(s, dets, j);
  }

  /** `update` keeps the tracker's invariant. */
  lemma UpdateValid(s: State, dets: seq<Detection>)
    requires Valid(s)
    ensures Valid(Update(s, dets).0)
  {
    var g := Matching(s, dets);
    var r := Update(s, dets);
    MatchingPairs(s, dets);
    var t1 := PutMatches(s.tracks, g.matches, dets);
    var f0 := Fresh(MatchMap(g.matches), s.nextId, t1);
    AssignFreshKeys(dets, |dets|, g.freeDets, f0);
    assert DictOk(r.0.tracks);
    forall k | k in r.0.tracks.keys
      ensures k < r.0.nextId
    {
      var j :| 0 <= j < |r.0.tracks.keys| && r.0.tracks.keys[j] == k;
      UpdateStoresOnlyReturned(s, dets, k);
      var i :| 0 <= i < |dets| && r.1[i].trackId == k;
      UpdateIdSource(s, dets, i);
    }
  }

  lemma {:induction false} FreeBelowAll(n: nat, i: nat)
    requires i <= n
    ensures FreeBelow(AllDets(n), i) == i
    decreases i
  {
    if i > 0 {
      FreeBelowAll(n, i - 1);
    }
  }

  /** With nothing stored, every detection gets a fresh id, in order: the
      first frame of a new tracker is numbered 1, 2, 3, ... */
  lemma UpdateFromEmpty(s: State, dets: seq<Detection>)
    requires Valid(s) && s.tracks.keys == []
    ensures forall i :: 0 <= i < |dets| ==> Update(s, dets).1[i].trackId == s.nextId + i
    ensures Update(s, dets).0.nextId == s.nextId + |dets|
  {
    assert Candidates(dets, s.tracks) == [] by {
      EmptyRows(dets, s.tracks);
    }
    var g := Matching(s, dets);
    assert g.freeDets == AllDets(|dets|);
    NextIdMoves(s, dets);
    FreeBelowAll(|dets|, |dets|);
    forall i | 0 <= i < |dets|
      ensures Update(s, dets).1[i].trackId == s.nextId + i
    {
      FreshId(s, dets, i);
      FreeBelowAll(|dets|, i);
    }
  }

  lemma {:induction false} EmptyRows(dets: seq<Detection>, t: Dict)
    requires DictOk(t) && t.keys == []
    ensures Candidates(dets, t) == []
    decreases |dets|
  {
    if |dets| > 0 {
      EmptyRows(dets[..|dets| - 1], t);
    }
  }
}
