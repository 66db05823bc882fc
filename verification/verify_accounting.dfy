/** The minimal verify worker: it scores an embedding by the sum of its
    components, accepts when that sum reaches the threshold and the candidate
    is not the unknown label, and keeps call counters. The construction time
    stamp comes from the clock and is a parameter here. */
module VerifyAccounting {
  import opened Base

  const UnknownLabel: string := "__unknown__"

  /** `_Counters`. */
  datatype Counters = Counters(called: nat, accepted: nat, rejected: nat, knownWrongAfterVerify: nat, seed: int, tsNs: int)

  datatype Worker = Worker(threshold: real, counters: Counters)

  datatype VerifyResult = VerifyResult(accepted: bool, score: real, details: map<string, real>)

  /** `VerifyWorker(threshold, seed)` created at clock reading `tsNs`. */
  function NewWorker(threshold: real, seed: int, tsNs: int): (w: Worker)
    ensures w.counters.called == 0 && w.counters.accepted == 0 && w.counters.rejected == 0
    ensures w.counters.knownWrongAfterVerify == 0 && w.counters.seed == seed
  {
    Worker(threshold, Counters(0, 0, 0, 0, seed, tsNs))
  }

  /** The accounting every caller relies on: each call is either an accept
      or a reject, and no known-wrong result is ever recorded. */
  predicate Balanced(c: Counters) {
    c.called == c.accepted + c.rejected && c.knownWrongAfterVerify == 0
  }

  /** `verify(embedding, candidate_label)`. */
  function Verify(w: Worker, embedding: seq<real>, candidate: string): (r: (Worker, VerifyResult))
    ensures r.1.score == Sum(embedding) && r.1.details == map["sum" := Sum(embedding)]
    ensures r.1.accepted <==> Sum(embedding) >= w.threshold && candidate != UnknownLabel
    ensures r.0.threshold == w.threshold
    ensures r.0.counters.called == w.counters.called + 1
    ensures r.0.counters.accepted + r.0.counters.rejected == w.counters.accepted + w.counters.rejected + 1
    ensures r.1.accepted ==> r.0.counters.accepted == w.counters.accepted + 1 && r.0.counters.rejected == w.counters.rejected
    ensures !r.1.accepted ==> r.0.counters.rejected == w.counters.rejected + 1 && r.0.counters.accepted == w.counters.accepted
    ensures Balanced(w.counters) ==> Balanced(r.0.counters)
  {
    var score := Sum(embedding);
    var accepted := score >= w.threshold && candidate != UnknownLabel;
    var c := w.counters;
    var c1 := c.(called := c.called + 1);
    var c2 := if accepted then c1.(accepted := c1.accepted + 1) else c1.(rejected := c1.rejected + 1);
    (w.(counters := c2), VerifyResult(accepted, score, map["sum" := score]))
  }

  /** A run of `verify` calls, each an embedding and a candidate label. */
  function VerifyAll(w: Worker, calls: seq<(seq<real>, string)>): Worker
    decreases |calls|
  {
    if |calls| == 0 then w
    else
      var last := calls[|calls| - 1];
      Verify(VerifyAll(w, calls[..|calls| - 1]), last.0, last.1).0
  }

  function Accepts(threshold: real): ((seq<real>, string)) -> bool {
    (call: (seq<real>, string)) => Sum(call.0) >= threshold && call.1 != UnknownLabel
  }

  /** After any run of calls from a fresh worker: `called` is the number of
      calls, `accepted` the number of accepting calls, `called == accepted +
      rejected`, and `known_wrong_after_verify` is still 0. */
  lemma {:induction false} VerifyAllCounts(w: Worker, calls: seq<(seq<real>, string)>)
    requires Balanced(w.counters)
    ensures var c := VerifyAll(w, calls).counters;
      && Balanced(c)
      && c.called == w.counters.called + |calls|
      && c.accepted == w.counters.accepted + CountWhere(calls, Accepts(w.threshold))
      && c.seed == w.counters.seed && c.tsNs == w.counters.tsNs
    ensures VerifyAll(w, calls).threshold == w.threshold
    decreases |calls|
  {
    if |calls| > 0 {
      VerifyAllCounts(w, calls[..|calls| - 1]);
    }
  }

  /** The snapshot of `metrics_snapshot`. */
  function Snapshot(w: Worker): (m: map<string, int>)
    ensures m.Keys == {"called", "accepted", "rejected", "known_wrong_after_verify", "seed", "ts_ns"}
    ensures Balanced(w.counters) ==> m["called"] == m["accepted"] + m["rejected"] && m["known_wrong_after_verify"] == 0
  {
    var c := w.counters;
    map["called" := c.called, "accepted" := c.accepted, "rejected" := c.rejected,
        "known_wrong_after_verify" := c.knownWrongAfterVerify, "seed" := c.seed, "ts_ns" := c.tsNs]
  }

  /** The unknown label is never accepted, whatever the score. */
  lemma UnknownNeverAccepted(w: Worker, embedding: seq<real>)
    ensures !Verify(w, embedding, UnknownLabel).1.accepted
  {
  }
}
