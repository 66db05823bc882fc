/** `InMemoryCandidateOracle`: a bounded FIFO of unknown-object candidates
    that sheds its oldest record when full. The lock is left out: calls are
    modelled one at a time. */
module CandidateOracle {
  import opened Base
  import Json
  import PyFloat

  /** `CandidateRecord`: a copy of the embedding and of the context mapping. */
  datatype Record = Record(embedding: seq<real>, context: seq<(string, Json.Value)>)

  datatype Oracle = Oracle(maxlen: nat, queue: seq<Record>, shed: nat)

  /** `InMemoryCandidateOracle(maxlen)`: a negative capacity counts as zero. */
  function Create(maxlen: int): (o: Oracle)
    ensures o.maxlen == Max(0, maxlen) && o.queue == [] && o.shed == 0
    ensures Valid(o)
  {
    Oracle(if maxlen < 0 then 0 else maxlen, [], 0)
  }

  /** The queue never holds more than the capacity. */
  predicate Valid(o: Oracle) {
    |o.queue| <= o.maxlen
  }

  /** `enqueue_unknown(embedding, context)`: with capacity zero the record is
      shed at once; at capacity the oldest record is shed to make room. */
  function Enqueue(o: Oracle, embedding: seq<real>, context: seq<(string, Json.Value)>): (r: Oracle)
    ensures r.maxlen == o.maxlen
    ensures Valid(o) ==> Valid(r)
    ensures |r.queue| + r.shed == |o.queue| + o.shed + 1
    ensures r.shed == o.shed || r.shed == o.shed + 1
    ensures o.maxlen == 0 ==> r.queue == o.queue && r.shed == o.shed + 1
    ensures o.maxlen > 0 ==> |r.queue| > 0 && r.queue[|r.queue| - 1] == Record(embedding, context)
    ensures o.maxlen > 0 && |o.queue| < o.maxlen ==> r.shed == o.shed
    ensures o.maxlen > 0 ==> r.queue == (o.queue + [Record(embedding, context)])[r.shed - o.shed..]
  {
    var rec := Record(embedding, context);
    if o.maxlen == 0 then o.(shed := o.shed + 1)
    else if |o.queue| >= o.maxlen then Oracle(o.maxlen, o.queue[1..] + [rec], o.shed + 1)
    else o.(queue := o.queue + [rec])
  }

  /** `record.embedding` as the JSON list the payload carries. */
  function EmbeddingValue(embedding: seq<real>): (v: Json.Value)
    ensures v.List? && |v.items| == |embedding|
    ensures forall i :: 0 <= i < |embedding| ==> v.items[i] == Json.Float(PyFloat.Finite(embedding[i]))
  {
    Json.List(seq(|embedding|, i requires 0 <= i < |embedding| => Json.Float(PyFloat.Finite(embedding[i]))))
  }

  /** `dict(record.context)` with `setdefault("embedding", ...)`. */
  function Payload(rec: Record): (p: seq<(string, Json.Value)>)
    ensures Json.HasKey(p, "embedding")
    ensures forall k :: Json.HasKey(rec.context, k) ==> Json.Lookup(p, k) == Json.Lookup(rec.context, k)
    ensures !Json.HasKey(rec.context, "embedding") ==>
      Json.Lookup(p, "embedding") == Some(EmbeddingValue(rec.embedding))
  {
    if Json.HasKey(rec.context, "embedding") then rec.context
    else
      var p := Json.Put(rec.context, "embedding", EmbeddingValue(rec.embedding));
      assert forall k :: Json.Lookup(p, k) == if k == "embedding" then Some(EmbeddingValue(rec.embedding)) else Json.Lookup(rec.context, k) by {
        forall k {
          Json.PutLookup(rec.context, "embedding", EmbeddingValue(rec.embedding), k);
        }
      }
      assert Json.Lookup(p, "embedding").Some?;
      p
  }

  /** What `next` returns: an empty label list and the payload. */
  datatype Candidate = Candidate(labels: seq<string>, payload: seq<(string, Json.Value)>)

  /** `next()`: the oldest record, or None when the queue is empty. */
  function Next(o: Oracle): (r: (Option<Candidate>, Oracle))
    ensures r.0.None? <==> |o.queue| == 0
    ensures r.0.None? ==> r.1 == o
    ensures r.0.Some? ==> r.0.value == Candidate([], Payload(o.queue[0])) && r.1.queue == o.queue[1..]
    ensures r.1.maxlen == o.maxlen && r.1.shed == o.shed
    ensures Valid(o) ==> Valid(r.1)
  {
    if |o.queue| == 0 then (None, o)
    else (Some(Candidate([], Payload(o.queue[0]))), o.(queue := o.queue[1..]))
  }

  function QSize(o: Oracle): nat { |o.queue| }

  function ShedTotal(o: Oracle): nat { o.shed }

  // ---------------------------------------------------------------------------
  // Sequences of calls

  datatype Op = EnqueueOp(embedding: seq<real>, context: seq<(string, Json.Value)>) | NextOp

  /** The state after a sequence of calls, the records `next` handed out, and
      every record taken off the front of the queue (shed or handed out), all
      in order. */
  datatype Trace = Trace(final: Oracle, delivered: seq<Record>, popped: seq<Record>)

  function Run(o: Oracle, ops: seq<Op>): Trace
    decreases |ops|
  {
    if |ops| == 0 then Trace(o, [], [])
    else Step(Run(o, ops[..|ops| - 1]), ops[|ops| - 1])
  }

  /** One call on top of a trace. */
  function Step(t: Trace, op: Op): Trace {
    var s := t.final;
    match op
    case EnqueueOp(e, c) =>
      var popped := if s.maxlen > 0 && |s.queue| >= s.maxlen then [s.queue[0]] else [];
      Trace(Enqueue(s, e, c), t.delivered, t.popped + popped)
    case NextOp =>
      if |s.queue| == 0 then t
      else Trace(Next(s).1, t.delivered + [s.queue[0]], t.popped + [s.queue[0]])
  }

  /** The record an enqueue call adds, none for `next`. */
  function Added(op: Op): seq<Record> {
    match op
    case EnqueueOp(e, c) => [Record(e, c)]
    case NextOp => []
  }

  /** The records of the enqueue calls, in call order. */
  function Enqueued(ops: seq<Op>): (rs: seq<Record>)
    ensures |rs| <= |ops|
    decreases |ops|
  {
    if |ops| == 0 then [] else Enqueued(ops[..|ops| - 1]) + Added(ops[|ops| - 1])
  }

  /** Every enqueued record is still queued, was shed, or was handed out. */
  lemma {:induction false} Conservation(o: Oracle, ops: seq<Op>)
    ensures var t := Run(o, ops);
      |o.queue| + o.shed + |Enqueued(ops)| == |t.final.queue| + t.final.shed + |t.delivered|
    decreases |ops|
  {
    if |ops| > 0 {
      Conservation(o, ops[..|ops| - 1]);
    }
  }

  /** The capacity bound holds after any sequence of calls. */
  lemma {:induction false} RunValid(o: Oracle, ops: seq<Op>)
    requires Valid(o)
    ensures Valid(Run(o, ops).final) && Run(o, ops).final.maxlen == o.maxlen
    decreases |ops|
  {
    if |ops| > 0 {
      RunValid(o, ops[..|ops| - 1]);
    }
  }

  /** FIFO: with a positive capacity, the records taken off the front followed
      by those still queued are exactly the records put in, in order. */
  lemma {:induction false} Fifo(o: Oracle, ops: seq<Op>)
    requires o.maxlen > 0
    ensures var t := Run(o, ops); t.popped + t.final.queue == o.queue + Enqueued(ops)
    ensures Run(o, ops).final.maxlen == o.maxlen
    decreases |ops|
  {
    if |ops| > 0 {
      var init := ops[..|ops| - 1];
      var op := ops[|ops| - 1];
      Fifo(o, init);
      FifoStep(Run(o, init), op);
    }
  }

  /** One call keeps "taken off the front, then still queued" equal to
      "put in", extended by the record the call adds. */
  lemma FifoStep(t: Trace, op: Op)
    requires t.final.maxlen > 0
    ensures Step(t, op).popped + Step(t, op).final.queue == t.popped + t.final.queue + Added(op)
    ensures Step(t, op).final.maxlen == t.final.maxlen
  {
    var s := t.final;
    match op
    case EnqueueOp(e, c) =>
      var rec := Record(e, c);
      if |s.queue| >= s.maxlen {
        assert [s.queue[0]] + s.queue[1..] == s.queue;
        assert (t.popped + [s.queue[0]]) + (s.queue[1..] + [rec]) == (t.popped + s.queue) + [rec];
      } else {
        assert t.popped + [] == t.popped;
        assert t.popped + (s.queue + [rec]) == (t.popped + s.queue) + [rec];
      }
    case NextOp =>
      assert t.popped + t.final.queue + [] == t.popped + t.final.queue;
      if |s.queue| > 0 {
        assert [s.queue[0]] + s.queue[1..] == s.queue;
        assert (t.popped + [s.queue[0]]) + s.queue[1..] == t.popped + s.queue;
      }
  }

  /** `a` is `b` with some records deleted (matched from the back). */
  predicate IsSubseq(a: seq<Record>, b: seq<Record>)
    decreases |b|
  {
    if |a| == 0 then true
    else if |b| == 0 then false
    else if a[|a| - 1] == b[|b| - 1] then IsSubseq(a[..|a| - 1], b[..|b| - 1])
    else IsSubseq(a, b[..|b| - 1])
  }

  lemma {:induction false} SubseqDropLast(a: seq<Record>, b: seq<Record>)
    requires |a| > 0 && IsSubseq(a, b)
    ensures IsSubseq(a[..|a| - 1], b)
    decreases |b|, 0
  {
    var a' := a[..|a| - 1];
    if |a'| > 0 && |b| > 0 {
      var b' := b[..|b| - 1];
      if a[|a| - 1] == b[|b| - 1] {
        SubseqExtend(a', b', b[|b| - 1]);
      } else {
        SubseqDropLast(a, b');
        SubseqExtend(a', b', b[|b| - 1]);
      }
    }
  }

  lemma SubseqExtend(a: seq<Record>, b: seq<Record>, x: Record)
    requires IsSubseq(a, b)
    ensures IsSubseq(a, b + [x])
    decreases |b|, 1
  {
    assert (b + [x])[..|b|] == b;
    if |a| > 0 && a[|a| - 1] == x {
      SubseqDropLast(a, b);
    }
  }

  /** Handed-out records are taken off the front in the order they were
      handed out, so with `Fifo` they come out in the order they went in. */
  lemma {:induction false} DeliveredInOrder(o: Oracle, ops: seq<Op>)
    ensures IsSubseq(Run(o, ops).delivered, Run(o, ops).popped)
    decreases |ops|
  {
    if |ops| > 0 {
      var init := ops[..|ops| - 1];
      DeliveredInOrder(o, init);
      var t := Run(o, init);
      var s := t.final;
      match ops[|ops| - 1]
      case EnqueueOp(e, c) =>
        if s.maxlen > 0 && |s.queue| >= s.maxlen {
          SubseqExtend(t.delivered, t.popped, s.queue[0]);
        } else {
          assert t.popped + [] == t.popped;
        }
      case NextOp =>
        if |s.queue| > 0 {
          var d := t.delivered + [s.queue[0]];
          var p := t.popped + [s.queue[0]];
          assert d[..|d| - 1] == t.delivered && p[..|p| - 1] == t.popped;
        }
    }
  }

  /** With capacity zero nothing is ever queued: every enqueue is shed. */
  lemma {:induction false} ZeroCapacity(o: Oracle, ops: seq<Op>)
    requires o.maxlen == 0 && o.queue == []
    ensures Run(o, ops).final.queue == [] && Run(o, ops).delivered == []
    ensures Run(o, ops).final.maxlen == 0
    ensures Run(o, ops).final.shed == o.shed + |Enqueued(ops)|
    decreases |ops|
  {
    if |ops| > 0 {
      ZeroCapacity(o, ops[..|ops| - 1]);
    }
  }
}
