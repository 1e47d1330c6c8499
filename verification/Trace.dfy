/**
 What the rest of the world does around the batcher, moment by moment, and the trace a run
 leaves: one point before each moment and one at the end. The trace says where the batcher
 waited, and from it follows for which renderers it never waits for long.
 */
module Trace {
  import opened Flow

  /** What may happen at a point where the batcher can be interrupted. */
  datatype Moment = Moment(acks: seq<nat>, closes: bool, deadline: bool, sinkAccepts: bool)

  /**
   Frames and bytes handed over so far, the counter of outstanding bytes, and whether the
   batcher is in a pause.
   */
  datatype Point = Point(frames: nat, sent: nat, unacked: nat, waiting: bool)

  /** What was acknowledged during the first `n` moments. */
  function MomentAcks(moments: seq<Moment>, n: nat): nat
    requires n <= |moments|
  {
    if n == 0 then 0 else MomentAcks(moments, n - 1) + Sum(moments[n - 1].acks)
  }

  /** What was acknowledged in the moments from `from` up to `to`. */
  function AckedIn(moments: seq<Moment>, from: nat, to: nat): (acked: nat)
    requires from <= to <= |moments|
  {
    MomentAcksGrow(moments, from, to);
    MomentAcks(moments, to) - MomentAcks(moments, from)
  }

  /** Whether a close landed in one of these moments. */
  predicate Closes(moments: seq<Moment>, from: nat, to: nat)
    requires from <= to <= |moments|
  {
    exists k :: from <= k < to && moments[k].closes
  }

  lemma {:induction false} MomentAcksGrow(moments: seq<Moment>, n: nat, m: nat)
    requires n <= m <= |moments|
    ensures MomentAcks(moments, n) <= MomentAcks(moments, m)
  {
    if n < m {
      MomentAcksGrow(moments, n, m - 1);
    }
  }

  /** Never more than so much is outstanding. */
  predicate UpTo(trace: seq<Point>, most: nat) {
    forall k :: 0 <= k < |trace| ==> trace[k].unacked <= most
  }

  /** How many points of a trace lie in a pause. */
  function Waits(trace: seq<Point>): nat {
    if trace == [] then 0
    else Waits(trace[..|trace| - 1]) + if trace[|trace| - 1].waiting then 1 else 0
  }

  lemma WaitsOfLonger(trace: seq<Point>, last: Point)
    ensures Waits(trace + [last]) == Waits(trace) + if last.waiting then 1 else 0
  {
    assert (trace + [last])[..|trace|] == trace;
  }

  // ------------------------------------------------------------------ traces

  /** From one point to the next: acknowledgements land, and at most one frame is handed over. */
  predicate Follows(a: Point, b: Point, m: Moment, enabled: bool) {
    && a.sent <= b.sent
    && (enabled ==> b.unacked == SaturatingSub(a.unacked, Sum(m.acks)) + (b.sent - a.sent))
    && (b.frames == a.frames ==> b.sent == a.sent)
    && (b.frames == a.frames || (b.frames == a.frames + 1 && !b.waiting))
  }

  predicate StepAt(trace: seq<Point>, moments: seq<Moment>, enabled: bool, k: nat) {
    k + 1 < |trace| && k < |moments| ==> Follows(trace[k], trace[k + 1], moments[k], enabled)
  }

  /** There is cause to wait at this point: the session is open and too much is outstanding. */
  predicate MayWait(moments: seq<Moment>, k: nat, unacked: nat, enabled: bool, closed: bool) {
    enabled && !closed && k <= |moments| && !Closes(moments, 0, k) && unacked > LOW_WATERMARK
  }

  /** A pause begins above the high watermark. */
  predicate MayPause(before: Point, unacked: nat) {
    before.waiting || unacked > HIGH_WATERMARK
  }

  predicate WaitsAt(trace: seq<Point>, moments: seq<Moment>, enabled: bool, closed: bool, k: nat) {
    k < |trace| && trace[k].waiting ==>
      && MayWait(moments, k, trace[k].unacked, enabled, closed)
      && (k == 0 || MayPause(trace[k - 1], trace[k].unacked))
  }

  /** A trace from the start, `closed` being whether the session was closed by then. */
  predicate Traced(trace: seq<Point>, moments: seq<Moment>, enabled: bool, closed: bool) {
    && 0 < |trace| <= |moments| + 1 && trace[0] == Point(0, 0, 0, false)
    && (forall k :: 0 <= k < |trace| ==> StepAt(trace, moments, enabled, k))
    && (forall k :: 0 <= k < |trace| ==> WaitsAt(trace, moments, enabled, closed, k))
  }

  lemma TraceOfLonger(trace: seq<Point>, moments: seq<Moment>, enabled: bool, closed: bool, p: Point)
    requires Traced(trace, moments, enabled, closed) && |trace| <= |moments|
    requires Follows(trace[|trace| - 1], p, moments[|trace| - 1], enabled)
    requires p.waiting ==>
               MayWait(moments, |trace|, p.unacked, enabled, closed) && MayPause(trace[|trace| - 1], p.unacked)
    ensures Traced(trace + [p], moments, enabled, closed)
  {
    var longer := trace + [p];
    forall k | 0 <= k < |longer|
      ensures StepAt(longer, moments, enabled, k)
      ensures WaitsAt(longer, moments, enabled, closed, k)
    {
      assert k < |trace| ==> StepAt(trace, moments, enabled, k) && WaitsAt(trace, moments, enabled, closed, k);
    }
  }

  lemma TraceOfShorter(trace: seq<Point>, moments: seq<Moment>, enabled: bool, closed: bool)
    requires Traced(trace, moments, enabled, closed) && |trace| > 1
    ensures Traced(trace[..|trace| - 1], moments, enabled, closed)
  {
    var shorter := trace[..|trace| - 1];
    forall k | 0 <= k < |shorter|
      ensures StepAt(shorter, moments, enabled, k)
      ensures WaitsAt(shorter, moments, enabled, closed, k)
    {
      assert StepAt(trace, moments, enabled, k) && WaitsAt(trace, moments, enabled, closed, k);
    }
  }

  /** The point after `from`, when nothing is handed over. */
  function Later(p: Point, moments: seq<Moment>, from: nat, to: nat, waiting: bool): Point
    requires from <= to <= |moments|
  {
    Point(p.frames, p.sent, SaturatingSub(p.unacked, AckedIn(moments, from, to)), waiting)
  }

  /** There is still cause to wait at `k` when so much was outstanding at `from` and nothing is handed over. */
  predicate StillCause(moments: seq<Moment>, from: nat, k: nat, unacked: nat, enabled: bool, closed: bool) {
    from <= k <= |moments|
    && MayWait(moments, k, SaturatingSub(unacked, AckedIn(moments, from, k)), enabled, closed)
  }

  predicate CauseThroughout(moments: seq<Moment>, from: nat, until: nat, unacked: nat, enabled: bool, closed: bool) {
    forall k :: from < k <= until ==> StillCause(moments, from, k, unacked, enabled, closed)
  }

  /** A stretch of moments in which nothing is handed over, spent waiting or not. */
  lemma {:induction false} Quiet(trace: seq<Point>, moments: seq<Moment>, enabled: bool, closed: bool, until: nat,
                                 waiting: bool)
    returns (longer: seq<Point>)
    requires Traced(trace, moments, enabled, closed) && |trace| - 1 <= until <= |moments|
    requires waiting ==>
               CauseThroughout(moments, |trace| - 1, until, trace[|trace| - 1].unacked, enabled, closed)
    requires waiting && |trace| <= until ==>
               MayPause(trace[|trace| - 1], SaturatingSub(trace[|trace| - 1].unacked, Sum(moments[|trace| - 1].acks)))
    ensures Traced(longer, moments, enabled, closed) && trace <= longer && |longer| == until + 1
    ensures forall k :: |trace| <= k <= until ==>
              longer[k] == Later(trace[|trace| - 1], moments, |trace| - 1, k, waiting)
    ensures Waits(longer) == Waits(trace) + if waiting then until + 1 - |trace| else 0
    decreases until
  {
    longer := trace;
    if |trace| - 1 < until {
      longer := Quiet(trace, moments, enabled, closed, until - 1, waiting);
      var p := Later(trace[|trace| - 1], moments, |trace| - 1, until, waiting);
      assert longer[until - 1] == Later(trace[|trace| - 1], moments, |trace| - 1, until - 1, longer[until - 1].waiting);
      assert waiting ==>
          StillCause(moments, |trace| - 1, until, trace[|trace| - 1].unacked, enabled, closed);
      TraceOfLonger(longer, moments, enabled, closed, p);
      WaitsOfLonger(longer, p);
      longer := longer + [p];
    }
  }

  /** The same frames and bytes handed over, and no more outstanding. */
  predicate Calm(p: Point, q: Point) {
    q.frames == p.frames && q.sent == p.sent && q.unacked <= p.unacked
  }

  /** A stretch spent waiting up to `waited`, if at all, and then one spent not waiting. */
  lemma QuietTurn(trace: seq<Point>, moments: seq<Moment>, enabled: bool, closed: bool, waited: nat, at: nat)
    returns (longer: seq<Point>)
    requires Traced(trace, moments, enabled, closed) && |trace| - 1 <= waited <= at <= |moments|
    requires CauseThroughout(moments, |trace| - 1, waited, trace[|trace| - 1].unacked, enabled, closed)
    requires |trace| <= waited ==>
               MayPause(trace[|trace| - 1], SaturatingSub(trace[|trace| - 1].unacked, Sum(moments[|trace| - 1].acks)))
    ensures Traced(longer, moments, enabled, closed) && trace <= longer && |longer| == at + 1
    ensures forall k :: |trace| <= k <= at ==> Calm(trace[|trace| - 1], longer[k])
    ensures longer[at] == Later(trace[|trace| - 1], moments, |trace| - 1, at, longer[at].waiting)
    ensures Waits(longer) == Waits(trace) + (waited + 1 - |trace|)
  {
    var paused := Quiet(trace, moments, enabled, closed, waited, true);
    longer := Quiet(paused, moments, enabled, closed, at, false);
    forall k | |trace| <= k <= at
      ensures Calm(trace[|trace| - 1], longer[k])
    {
      assert k <= waited ==> longer[k] == paused[k];
      assert Calm(trace[|trace| - 1], paused[waited]);
    }
  }

  /** And then a frame handed over. */
  lemma HandedOver(trace: seq<Point>, moments: seq<Moment>, enabled: bool, closed: bool, size: nat, p: Point)
    requires Traced(trace, moments, enabled, closed) && |trace| <= |moments|
    requires p.frames == trace[|trace| - 1].frames + 1 && p.sent == trace[|trace| - 1].sent + size && !p.waiting
    requires p.unacked == SaturatingSub(trace[|trace| - 1].unacked, Sum(moments[|trace| - 1].acks)) + size
    ensures Traced(trace + [p], moments, enabled, closed) && Waits(trace + [p]) == Waits(trace)
  {
    TraceOfLonger(trace, moments, enabled, closed, p);
    WaitsOfLonger(trace, p);
  }

  // ------------------------------------------------------------------ how long pauses are

  /** No pause takes more than `waits` moments. */
  predicate ShortPauses(trace: seq<Point>, waits: nat) {
    forall k, j :: 0 <= k && k + 1 + waits <= j < |trace| && trace[k].frames == trace[j].frames ==>
      !trace[j].waiting
  }

  /** Then all pauses together take so many moments for each frame. */
  lemma ShortPausesAreFewWaits(trace: seq<Point>, moments: seq<Moment>, enabled: bool, closed: bool, waits: nat)
    requires Traced(trace, moments, enabled, closed) && ShortPauses(trace, waits)
    ensures Waits(trace) <= waits * (trace[|trace| - 1].frames + 1)
  {
    var start := PauseOfTheLast(trace, moments, enabled, closed, waits);
    assert waits * (trace[|trace| - 1].frames + 1) == waits * trace[|trace| - 1].frames + waits;
  }

  lemma {:induction false} PauseOfTheLast(trace: seq<Point>, moments: seq<Moment>, enabled: bool, closed: bool,
                                          waits: nat)
    returns (start: nat)
    requires Traced(trace, moments, enabled, closed) && ShortPauses(trace, waits)
    ensures start < |trace| && trace[start].frames == trace[|trace| - 1].frames
    ensures Waits(trace) <= waits * trace[|trace| - 1].frames + (|trace| - 1 - start)
    ensures Waits(trace) <= waits * trace[|trace| - 1].frames + waits
    decreases |trace|
  {
    start := |trace| - 1;
    if |trace| == 1 {
      assert Waits(trace[..0]) == 0;
    } else {
      var shorter := trace[..|trace| - 1];
      var before, last := trace[|trace| - 2], trace[|trace| - 1];
      TraceOfShorter(trace, moments, enabled, closed);
      var earlier := PauseOfTheLast(shorter, moments, enabled, closed, waits);
      assert StepAt(trace, moments, enabled, |trace| - 2);
      if last.frames == before.frames {
        start := earlier;
      } else {
        assert waits * last.frames == waits * before.frames + waits;
      }
    }
  }

  lemma MoreFramesMoreWaits(waits: nat, frames: nat, chunks: nat)
    requires frames <= chunks
    ensures waits * (frames + 1) <= waits * (chunks + 1)
  {
  }

  /** Between two points with the same frames handed over, the counter only fell. */
  lemma {:induction false} WithinOnePause(trace: seq<Point>, moments: seq<Moment>, enabled: bool, closed: bool,
                                          k: nat, j: nat)
    requires Traced(trace, moments, enabled, closed) && k <= j < |trace|
    ensures trace[k].frames <= trace[j].frames
    ensures trace[k].frames == trace[j].frames ==> trace[k].sent == trace[j].sent
    ensures enabled && trace[k].frames == trace[j].frames ==>
              trace[j].unacked == SaturatingSub(trace[k].unacked, AckedIn(moments, k, j))
    decreases j
  {
    if k < j {
      WithinOnePause(trace, moments, enabled, closed, k, j - 1);
      assert StepAt(trace, moments, enabled, j - 1);
    }
  }

  // ------------------------------------------------------------------ renderers

  /** A renderer acknowledges only what has been handed over to it. */
  predicate Honest(trace: seq<Point>, moments: seq<Moment>) {
    forall k :: 0 <= k < |trace| - 1 && k < |moments| ==> MomentAcks(moments, k + 1) <= trace[k].sent
  }

  /** It acknowledges everything within `lag` moments, but for what it holds back, at most one chunk. */
  predicate Prompt(trace: seq<Point>, moments: seq<Moment>, lag: nat) {
    forall k :: 0 <= k && k + lag < |trace| && k + lag <= |moments| ==>
      trace[k].sent <= MomentAcks(moments, k + lag) + ACK_CHUNK
  }

  /** As long as the renderer is honest the counter is exact: bytes sent less bytes acknowledged. */
  lemma {:induction false} CounterIsExact(trace: seq<Point>, moments: seq<Moment>, closed: bool, k: nat)
    requires Traced(trace, moments, true, closed) && Honest(trace, moments) && k < |trace|
    ensures trace[k].unacked + MomentAcks(moments, k) == trace[k].sent
  {
    if k > 0 {
      CounterIsExact(trace, moments, closed, k - 1);
      assert StepAt(trace, moments, true, k - 1);
    }
  }

  /** So an honest renderer that is never further behind than `lag` moments pauses nobody for longer. */
  lemma HonestPausesAreShort(trace: seq<Point>, moments: seq<Moment>, closed: bool, lag: nat)
    requires Traced(trace, moments, true, closed) && Honest(trace, moments) && Prompt(trace, moments, lag)
    ensures ShortPauses(trace, lag)
  {
    forall k, j | 0 <= k && k + 1 + lag <= j < |trace| && trace[k].frames == trace[j].frames
      ensures !trace[j].waiting
    {
      CounterIsExact(trace, moments, closed, j);
      WithinOnePause(trace, moments, true, closed, k, j);
      MomentAcksGrow(moments, k + lag, j);
      assert WaitsAt(trace, moments, true, closed, j);
    }
  }

  /** Every moment acknowledges at least so much. */
  predicate Paced(moments: seq<Moment>, pace: nat) {
    forall k :: 0 <= k < |moments| ==> Sum(moments[k].acks) >= pace
  }

  lemma {:induction false} PaceAdds(moments: seq<Moment>, pace: nat, from: nat, to: nat)
    requires from <= to <= |moments| && Paced(moments, pace)
    ensures AckedIn(moments, from, to) >= (to - from) * pace
  {
    if from < to {
      PaceAdds(moments, pace, from, to - 1);
      assert (to - from) * pace == (to - 1 - from) * pace + pace;
    }
  }

  /** So does any source of acknowledgements with a pace that takes `most` below the low watermark in time. */
  lemma PacedPausesAreShort(trace: seq<Point>, moments: seq<Moment>, closed: bool, most: nat, pace: nat, waits: nat)
    requires Traced(trace, moments, true, closed) && UpTo(trace, most)
    requires Paced(moments, pace) && most <= LOW_WATERMARK + (waits + 1) * pace
    ensures ShortPauses(trace, waits)
  {
    forall k, j | 0 <= k && k + 1 + waits <= j < |trace| && trace[k].frames == trace[j].frames
      ensures !trace[j].waiting
    {
      WithinOnePause(trace, moments, true, closed, k, j);
      PaceAdds(moments, pace, k, k + 1 + waits);
      MomentAcksGrow(moments, k + 1 + waits, j);
      assert WaitsAt(trace, moments, true, closed, j);
    }
  }

  /** With flow control off nobody ever waits. */
  lemma NoPausesAtAll(trace: seq<Point>, moments: seq<Moment>, closed: bool, waits: nat)
    requires Traced(trace, moments, false, closed)
    ensures ShortPauses(trace, waits)
  {
    forall j | 0 <= j < |trace|
      ensures !trace[j].waiting
    {
      assert WaitsAt(trace, moments, false, closed, j);
    }
  }
}
