/**
 The batcher with its real bytes: chunks from the reader are coalesced into frames for the
 sink, under a flow controller that other threads acknowledge and close.

 What the rest of the world does is a list of moments: at every point where the batcher can
 be interrupted it consumes one, in which any acknowledgements and a close may land, the
 frame deadline may have passed, and the sink may be gone. A run that uses up its moments is
 suspended where it is, so a contract over all lists is a contract over all partial runs.
 */
module Stream {
  import opened Bytes
  import opened Flow
  import opened Trace

  /** What may happen before one attempt of a compare-exchange. */
  datatype Race = Race(acks: seq<nat>, spurious: bool)

  datatype End = SourceEnded | SessionClosed | SinkGone | Suspended

  /** The first `n` parts, end to end. */
  function Joined(parts: seq<seq<byte>>, n: nat): seq<byte>
    requires n <= |parts|
  {
    if n == 0 then [] else Joined(parts, n - 1) + parts[n - 1]
  }

  function Concat(parts: seq<seq<byte>>): seq<byte> {
    Joined(parts, |parts|)
  }

  /** The counter after each of these acknowledgements in turn. */
  function AckedAll(counter: nat, acks: seq<nat>): nat {
    if acks == [] then counter else AckedAll(SaturatingSub(counter, acks[0]), acks[1..])
  }

  /** What was acknowledged during the first `n` races. */
  function RaceAcks(races: seq<Race>, n: nat): nat
    requires n <= |races|
  {
    if n == 0 then 0 else RaceAcks(races, n - 1) + Sum(races[n - 1].acks)
  }

  /** Saturating acknowledgements commute: only their sum matters. */
  lemma {:induction false} AckedAllIsSum(counter: nat, acks: seq<nat>)
    ensures AckedAll(counter, acks) == SaturatingSub(counter, Sum(acks))
    decreases |acks|
  {
    if acks != [] {
      AckedAllIsSum(SaturatingSub(counter, acks[0]), acks[1..]);
    }
  }

  lemma {:induction false} JoinedOfLonger(parts: seq<seq<byte>>, last: seq<byte>, n: nat)
    requires n <= |parts|
    ensures Joined(parts + [last], n) == Joined(parts, n)
  {
    if n > 0 {
      JoinedOfLonger(parts, last, n - 1);
    }
  }

  lemma ConcatAppend(parts: seq<seq<byte>>, last: seq<byte>)
    ensures Concat(parts + [last]) == Concat(parts) + last
  {
    JoinedOfLonger(parts, last, |parts|);
  }

  lemma {:induction false} JoinedIsPrefix(parts: seq<seq<byte>>, n: nat, m: nat)
    requires n <= m <= |parts|
    ensures Joined(parts, n) <= Joined(parts, m)
  {
    if n < m {
      JoinedIsPrefix(parts, n, m - 1);
    }
  }

  class FlowControl {
    const enabled: bool
    var unacked: nat
    var peak: nat
    var closed: bool

    constructor (enabled: bool)
      ensures this.enabled == enabled && unacked == 0 && peak == 0 && !closed
    {
      this.enabled := enabled;
      unacked, peak, closed := 0, 0, false;
    }

    method OnSent(bytes: nat)
      modifies this`unacked, this`peak
      ensures unacked == FetchAdd(old(unacked), bytes)
      ensures old(unacked) < U64_SIZE && bytes < U64_SIZE ==> unacked == (old(unacked) + bytes) % U64_SIZE
      ensures peak == if unacked > old(peak) then unacked else old(peak)
    {
      unacked := FetchAdd(unacked, bytes);
      if unacked > peak {
        peak := unacked;
      }
    }

    /**
     The compare-exchange loop, with other acknowledgements landing between its load and
     each attempt. Whatever wins, every acknowledgement counts exactly once.
     */
    method Ack(bytes: nat, races: seq<Race>) returns (attempts: nat)
      modifies this`unacked
      ensures attempts <= |races|
      ensures unacked == SaturatingSub(old(unacked), RaceAcks(races, attempts) + bytes)
      ensures var acked := RaceAcks(races, attempts) + bytes;
              unacked == 0 || unacked + acked == old(unacked)
      ensures RaceAcks(races, attempts) + bytes <= old(unacked) ==>
                unacked + RaceAcks(races, attempts) + bytes == old(unacked)
    {
      var current := unacked;
      attempts := 0;
      while true
        invariant attempts <= |races|
        invariant unacked == SaturatingSub(old(unacked), RaceAcks(races, attempts))
        decreases |races| - attempts, if current == unacked then 0 else 1
      {
        var spurious := false;
        if attempts < |races| {
          AckedAllIsSum(unacked, races[attempts].acks);
          unacked := AckedAll(unacked, races[attempts].acks);
          spurious := races[attempts].spurious;
          attempts := attempts + 1;
        }
        if unacked == current && !spurious {
          unacked := SaturatingSub(current, bytes);
          return;
        }
        current := unacked;
      }
    }

    method Close()
      modifies this`closed
      ensures closed
    {
      closed := true;
    }

    /** Everything the other threads do in one moment. */
    method Interfere(m: Moment)
      modifies this`unacked, this`closed
      ensures unacked == SaturatingSub(old(unacked), Sum(m.acks))
      ensures closed == (old(closed) || m.closes)
    {
      AckedAllIsSum(unacked, m.acks);
      unacked := AckedAll(unacked, m.acks);
      if m.closes {
        Close();
      }
    }

    /**
     Waits from above the high watermark until closed or at or below the low one: exactly up to
     the first moment at which that is so, or stuck if none of them is.
     */
    method WaitForCapacity(moments: seq<Moment>, from: nat) returns (waited: bool, at: nat, stuck: bool)
      requires from <= |moments|
      modifies this`unacked, this`closed
      ensures from <= at <= |moments|
      ensures unacked == SaturatingSub(old(unacked), AckedIn(moments, from, at))
      ensures closed == (old(closed) || Closes(moments, from, at))
      ensures waited == (enabled && old(unacked) > HIGH_WATERMARK)
      ensures !waited ==> at == from && !stuck
      ensures waited ==> forall k :: from <= k < at ==>
                           !HasReason(old(unacked), old(closed), moments, from, k)
      ensures waited ==> stuck == !HasReason(old(unacked), old(closed), moments, from, at)
      ensures stuck ==> at == |moments|
    {
      at := from;
      if !enabled || unacked <= HIGH_WATERMARK {
        return false, at, false;
      }
      while true
        invariant from <= at <= |moments|
        invariant unacked == SaturatingSub(old(unacked), AckedIn(moments, from, at))
        invariant closed == (old(closed) || Closes(moments, from, at))
        invariant forall k :: from <= k < at ==> !HasReason(old(unacked), old(closed), moments, from, k)
        decreases |moments| - at
      {
        if closed || unacked <= LOW_WATERMARK {
          return true, at, false;
        }
        if at == |moments| {
          return true, at, true;
        }
        Interfere(moments[at]);
        at := at + 1;
      }
    }
  }

  /** A waiter that began at `from` has reason to resume by the moment `to`. */
  predicate HasReason(unacked: nat, closed: bool, moments: seq<Moment>, from: nat, to: nat)
    requires from <= to <= |moments|
  {
    closed || Closes(moments, from, to) || SaturatingSub(unacked, AckedIn(moments, from, to)) <= LOW_WATERMARK
  }

  /** Why a frame is finished; each reason with the moments it takes. */
  datatype Finish = Full | Deadline | SourceClosed | OutOfMoments

  /** The moments a frame takes: one for each chunk it absorbs, and one more to notice the end. */
  function FrameMoments(absorbed: nat, finish: Finish): nat {
    absorbed + if finish.Deadline? || finish.SourceClosed? then 1 else 0
  }

  /**
   The coalescing loop: absorb chunks into `first` until the window closes, the frame is big
   enough, or the source ends; it stops for no other reason and not before.
   */
  method Coalesce(first: seq<byte>, chunks: seq<seq<byte>>, from: nat, moments: seq<Moment>, since: nat,
                  flow: FlowControl, ghost longest: nat)
    returns (frame: seq<byte>, next: nat, at: nat, finish: Finish)
    requires forall i :: 0 <= i < |chunks| ==> |chunks[i]| <= longest
    requires 0 < from <= |chunks| && since <= |moments| && first == chunks[from - 1]
    modifies flow`unacked, flow`closed
    ensures from <= next <= |chunks| && since <= at <= |moments|
    ensures |frame| <= FrameCap(longest)
    ensures first <= frame
    ensures Joined(chunks, from) + frame[|first|..] == Joined(chunks, next)
    ensures at - since == FrameMoments(next - from, finish)
    ensures finish.Full? <==> |frame| >= MAX_FRAME_BYTES
    ensures next > from ==> |frame| - |chunks[next - 1]| < MAX_FRAME_BYTES
    ensures finish.SourceClosed? ==> next == |chunks| && !moments[at - 1].deadline
    ensures finish.Deadline? ==> moments[at - 1].deadline
    ensures finish.OutOfMoments? ==> at == |moments|
    ensures forall k :: since <= k < since + next - from ==> !moments[k].deadline
    ensures flow.unacked == SaturatingSub(old(flow.unacked), AckedIn(moments, since, at))
    ensures flow.closed == (old(flow.closed) || Closes(moments, since, at))
  {
    frame, next, at, finish := first, from, since, Full;
    while |frame| < MAX_FRAME_BYTES
      invariant from <= next <= |chunks| && since <= at <= |moments|
      invariant |frame| <= FrameCap(longest)
      invariant first <= frame
      invariant Joined(chunks, from) + frame[|first|..] == Joined(chunks, next)
      invariant at - since == next - from && finish.Full?
      invariant next > from ==> |frame| - |chunks[next - 1]| < MAX_FRAME_BYTES
      invariant forall k :: since <= k < at ==> !moments[k].deadline
      invariant flow.unacked == SaturatingSub(old(flow.unacked), AckedIn(moments, since, at))
      invariant flow.closed == (old(flow.closed) || Closes(moments, since, at))
      decreases |moments| - at
    {
      if at == |moments| {
        finish := OutOfMoments;
        break;
      }
      flow.Interfere(moments[at]);
      at := at + 1;
      if moments[at - 1].deadline {
        finish := Deadline;
        break;
      }
      if next == |chunks| {
        finish := SourceClosed;
        break;
      }
      assert (frame + chunks[next])[|first|..] == frame[|first|..] + chunks[next];
      frame := frame + chunks[next];
      next := next + 1;
    }
  }

  /** Count a finished frame, then hand it to the sink. */
  method HandOver(frame: seq<byte>, moment: Moment, flow: FlowControl, ghost longest: nat) returns (accepted: bool)
    requires |frame| <= FrameCap(longest) && OutstandingCap(longest) < U64_SIZE
    requires flow.enabled ==> flow.unacked <= HIGH_WATERMARK
    modifies flow`unacked, flow`peak, flow`closed
    ensures accepted == moment.sinkAccepts
    ensures flow.unacked == FetchAdd(SaturatingSub(old(flow.unacked), Sum(moment.acks)), |frame|)
    ensures flow.enabled ==> flow.unacked == SaturatingSub(old(flow.unacked), Sum(moment.acks)) + |frame|
    ensures flow.peak == if flow.unacked > old(flow.peak) then flow.unacked else old(flow.peak)
    ensures flow.closed == (old(flow.closed) || moment.closes)
  {
    flow.Interfere(moment);
    flow.OnSent(|frame|);
    accepted := moment.sinkAccepts;
  }

  lemma CoalescedFrame(chunks: seq<seq<byte>>, next: nat, after: nat, frame: seq<byte>)
    requires next < after <= |chunks| && chunks[next] <= frame
    requires Joined(chunks, next + 1) + frame[|chunks[next]|..] == Joined(chunks, after)
    ensures Joined(chunks, next) + frame == Joined(chunks, after)
    ensures Joined(chunks, next) <= Joined(chunks, after)
  {
    assert frame == chunks[next] + frame[|chunks[next]|..];
  }

  /** How one turn of the batcher's outer loop ended. */
  datatype Turn = Sent(last: bool) | Ended(end: End)

  /** Whether a turn handed a frame over, accepted by the sink or not. */
  predicate Counts(turn: Turn) {
    turn.Sent? || turn.end.SinkGone?
  }

  /** How much it added to the counter. */
  function Counted(turn: Turn, frame: seq<byte>): nat {
    if Counts(turn) then |frame| else 0
  }

  /**
   One turn of the outer loop: wait for capacity up to `waited`, collect a frame, hand it over.
   It waits for no other cause and no longer than the cause lasts.
   */
  method OneFrame(chunks: seq<seq<byte>>, from: nat, moments: seq<Moment>, since: nat, flow: FlowControl,
                  ghost longest: nat)
    returns (turn: Turn, frame: seq<byte>, next: nat, at: nat, ghost waited: nat)
    requires forall i :: 0 <= i < |chunks| ==> |chunks[i]| <= longest
    requires OutstandingCap(longest) < U64_SIZE
    requires from <= |chunks| && since <= |moments|
    requires flow.enabled ==> flow.unacked <= flow.peak <= OutstandingCap(longest)
    modifies flow`unacked, flow`peak, flow`closed
    ensures from <= next <= |chunks| && since <= waited <= at <= |moments|
    ensures |frame| <= FrameCap(longest)
    ensures turn.Sent? ==> waited < at && from < next && Joined(chunks, from) + frame == Joined(chunks, next)
    ensures turn == Sent(false) && |frame| < MAX_FRAME_BYTES ==> since + 1 < at && moments[at - 2].deadline
    ensures turn.Sent? && next > from + 1 ==> |frame| - |chunks[next - 1]| < MAX_FRAME_BYTES
    ensures turn == Sent(true) ==> next == |chunks|
    ensures turn == Ended(SourceEnded) ==> next == from == |chunks| && !flow.closed
    ensures turn == Ended(SessionClosed) ==> next == from && flow.closed
    ensures turn == Ended(SinkGone) ==> waited < at && from < next && !moments[at - 1].sinkAccepts
    ensures turn == Ended(Suspended) ==> at == |moments|
    ensures since < waited || (turn == Ended(Suspended) && next == from) ==>
              flow.enabled && old(flow.unacked) > HIGH_WATERMARK
    ensures forall k :: since <= k < waited ==> !HasReason(old(flow.unacked), old(flow.closed), moments, since, k)
    ensures turn == Ended(Suspended) && next == from ==>
              flow.enabled && at == waited && !HasReason(old(flow.unacked), old(flow.closed), moments, since, at)
    ensures at - waited <= next - from + (if Counts(turn) then 1 else 0)
    ensures flow.closed == (old(flow.closed) || Closes(moments, since, at))
    ensures flow.enabled ==> flow.unacked <= flow.peak <= OutstandingCap(longest)
    ensures flow.enabled ==>
              flow.unacked == SaturatingSub(old(flow.unacked), AckedIn(moments, since, at)) + Counted(turn, frame)
  {
    var stuck, paused;
    frame, next := [], from;
    paused, at, stuck := flow.WaitForCapacity(moments, since);
    waited := at;
    if stuck {
      return Ended(Suspended), frame, next, at, waited;
    }
    if flow.closed {
      return Ended(SessionClosed), frame, next, at, waited;
    }
    if next == |chunks| {
      return Ended(SourceEnded), frame, next, at, waited;
    }
    var finish;
    frame, next, at, finish := Coalesce(chunks[from], chunks, from + 1, moments, at, flow, longest);
    CoalescedFrame(chunks, from, next, frame);
    if finish.OutOfMoments? || at == |moments| {
      return Ended(Suspended), frame, next, at, waited;
    }
    var accepted := HandOver(frame, moments[at], flow, longest);
    at := at + 1;
    turn := if accepted then Sent(finish.SourceClosed?) else Ended(SinkGone);
  }

  /** The cause to wait that a turn finds is one from its start on, and the session was open all along. */
  lemma CauseOfTheWait(moments: seq<Moment>, since: nat, start: nat, until: nat, unacked: nat, left: nat,
                       enabled: bool, wasClosed: bool, nowClosed: bool)
    requires since < |moments| && until <= |moments|
    requires start == since + 1 && left == SaturatingSub(unacked, Sum(moments[since].acks))
    requires nowClosed == (wasClosed || Closes(moments, 0, since) || moments[since].closes)
    requires since < until ==> enabled
    requires forall k :: start <= k <= until ==> !HasReason(left, nowClosed, moments, start, k)
    ensures CauseThroughout(moments, since, until, unacked, enabled, wasClosed)
  {
    forall k | since < k <= until
      ensures StillCause(moments, since, k, unacked, enabled, wasClosed)
    {
      assert !HasReason(left, nowClosed, moments, start, k);
      AckedOneMore(moments, since, k);
    }
  }

  lemma AckedOneMore(moments: seq<Moment>, since: nat, k: nat)
    requires since < k <= |moments|
    ensures AckedIn(moments, since, k) == Sum(moments[since].acks) + AckedIn(moments, since + 1, k)
  {
  }

  /** The trace of one turn, from what the turn says of itself. */
  lemma TraceOfTurn(trace: seq<Point>, moments: seq<Moment>, enabled: bool, closed: bool, until: nat, at: nat,
                    counts: bool, size: nat)
    returns (longer: seq<Point>)
    requires Traced(trace, moments, enabled, closed) && |trace| - 1 <= until <= at <= |moments|
    requires counts ==> until < at
    requires CauseThroughout(moments, |trace| - 1, until, trace[|trace| - 1].unacked, enabled, closed)
    requires |trace| <= until ==>
               MayPause(trace[|trace| - 1], SaturatingSub(trace[|trace| - 1].unacked, Sum(moments[|trace| - 1].acks)))
    ensures Traced(longer, moments, enabled, closed) && trace <= longer && |longer| == at + 1
    ensures forall k :: |trace| <= k < at ==> Calm(trace[|trace| - 1], longer[k])
    ensures at >= |trace| ==> longer[at].frames == trace[|trace| - 1].frames + (if counts then 1 else 0)
                              && longer[at].sent == trace[|trace| - 1].sent + (if counts then size else 0)
    ensures longer[at].unacked == SaturatingSub(trace[|trace| - 1].unacked, AckedIn(moments, |trace| - 1, at))
                                  + (if counts && at >= |trace| then size else 0)
    ensures Waits(longer) == Waits(trace) + (until + 1 - |trace|)
  {
    longer := QuietTurn(trace, moments, enabled, closed, until, if counts then at - 1 else at);
    if counts {
      var here := longer[at - 1];
      var p := Point(here.frames + 1, here.sent + size,
                     SaturatingSub(here.unacked, Sum(moments[at - 1].acks)) + size, false);
      HandedOver(longer, moments, enabled, closed, size, p);
      longer := longer + [p];
    }
  }

  /** Whether a turn found the end of the source or of the session and nothing else. */
  predicate Finds(turn: Turn) {
    turn == Ended(SourceEnded) || turn == Ended(SessionClosed)
  }

  /** A turn's trace after the one so far. */
  ghost predicate TurnTraced(trace: seq<Point>, longer: seq<Point>, at: nat, moments: seq<Moment>, enabled: bool,
                             closed: bool, turn: Turn, frame: seq<byte>, taken: nat) {
    && trace != [] && |trace| <= at && |longer| == at + 1
    && Traced(longer, moments, enabled, closed) && trace <= longer
    && (forall k :: |trace| <= k < at ==> Calm(trace[|trace| - 1], longer[k]))
    && longer[at].frames == trace[|trace| - 1].frames + (if Counts(turn) then 1 else 0)
    && longer[at].sent == trace[|trace| - 1].sent + Counted(turn, frame)
    && at + 1 - |trace| + Waits(trace) <= 3 * taken + Waits(longer) + (if Finds(turn) then 1 else 0)
  }

  /** One turn, after whatever happened since the last one. */
  method TakeTurn(chunks: seq<seq<byte>>, from: nat, moments: seq<Moment>, since: nat, flow: FlowControl,
                  ghost longest: nat, ghost trace: seq<Point>, ghost wasClosed: bool)
    returns (turn: Turn, frame: seq<byte>, next: nat, at: nat, ghost longer: seq<Point>)
    requires forall i :: 0 <= i < |chunks| ==> |chunks[i]| <= longest
    requires OutstandingCap(longest) < U64_SIZE
    requires from <= |chunks| && since < |moments|
    requires flow.enabled ==> flow.unacked <= flow.peak <= OutstandingCap(longest)
    requires Traced(trace, moments, flow.enabled, wasClosed) && |trace| == since + 1
    requires flow.enabled ==> trace[since].unacked == flow.unacked
    requires flow.closed == (wasClosed || Closes(moments, 0, since))
    modifies flow`unacked, flow`peak, flow`closed
    ensures from <= next <= |chunks| && since < at <= |moments|
    ensures |frame| <= FrameCap(longest)
    ensures turn.Sent? ==> Joined(chunks, from) + frame == Joined(chunks, next)
    ensures Counts(turn) ==> from < next
    ensures turn == Sent(true) || turn == Ended(SourceEnded) ==> next == |chunks|
    ensures turn == Ended(SourceEnded) || turn == Ended(SessionClosed) ==> next == from
    ensures turn == Ended(SessionClosed) ==> flow.closed
    ensures turn == Ended(SinkGone) ==> !moments[at - 1].sinkAccepts
    ensures turn == Ended(Suspended) ==> at == |moments|
    ensures TurnTraced(trace, longer, at, moments, flow.enabled, wasClosed, turn, frame, next - from)
    ensures flow.enabled ==> longer[at].unacked == flow.unacked
    ensures flow.enabled && UpTo(trace, OutstandingCap(longest)) ==> UpTo(longer, OutstandingCap(longest))
    ensures flow.closed == (wasClosed || Closes(moments, 0, at))
    ensures flow.enabled ==> flow.unacked <= flow.peak <= OutstandingCap(longest)
    ensures flow.enabled ==>
              old(flow.unacked) + (if turn.Sent? then |frame| else 0) <= flow.unacked + AckedIn(moments, since, at)
  {
    ghost var waited;
    flow.Interfere(moments[since]);
    ghost var left, nowClosed := flow.unacked, flow.closed;
    turn, frame, next, at, waited := OneFrame(chunks, from, moments, since + 1, flow, longest);
    ghost var stuck := turn == Ended(Suspended) && next == from;
    ghost var until := if stuck then at else waited - 1;
    AckedOneMore(moments, since, at);
    if flow.enabled {
      CauseOfTheWait(moments, since, since + 1, until, trace[since].unacked, left, true, wasClosed, nowClosed);
    }
    longer := TraceOfTurn(trace, moments, flow.enabled, wasClosed, until, at, Counts(turn), |frame|);
  }

  /** The first `n` points say how many of these frames were handed over by then, and so how many bytes. */
  predicate SentAre(trace: seq<Point>, n: nat, frames: seq<seq<byte>>) {
    forall k :: 0 <= k < n && k < |trace| ==>
      trace[k].frames <= |frames| && trace[k].sent == |Joined(frames, trace[k].frames)|
  }

  lemma SentAreOfLonger(trace: seq<Point>, longer: seq<Point>, at: nat, frames: seq<seq<byte>>)
    requires trace != [] && trace <= longer && |longer| == at + 1 && |trace| <= at
    requires SentAre(trace, |trace|, frames)
    requires forall k :: |trace| <= k < at ==> Calm(trace[|trace| - 1], longer[k])
    ensures SentAre(longer, at, frames)
  {
    forall k | 0 <= k < at
      ensures longer[k].frames <= |frames| && longer[k].sent == |Joined(frames, longer[k].frames)|
    {
      assert k < |trace| ==> longer[k] == trace[k];
      assert k >= |trace| ==> Calm(trace[|trace| - 1], longer[k]);
    }
  }

  lemma SentAreWithFrame(trace: seq<Point>, at: nat, frames: seq<seq<byte>>, frame: seq<byte>)
    requires |trace| == at + 1 && SentAre(trace, at, frames)
    requires trace[at].frames == |frames| + 1 && trace[at].sent == |Concat(frames)| + |frame|
    ensures SentAre(trace, at + 1, frames + [frame])
  {
    forall k | 0 <= k < at
      ensures trace[k].sent == |Joined(frames + [frame], trace[k].frames)|
    {
      JoinedOfLonger(frames, frame, trace[k].frames);
    }
    ConcatAppend(frames, frame);
  }

  /** A renderer that keeps up with what it is sent: no concern when flow control is off. */
  predicate KeepsUp(trace: seq<Point>, moments: seq<Moment>, enabled: bool, lag: nat) {
    enabled ==> Honest(trace, moments) && Prompt(trace, moments, lag)
  }

  lemma ShortPausesEnd(trace: seq<Point>, moments: seq<Moment>, enabled: bool, closed: bool, chunks: nat)
    requires Traced(trace, moments, enabled, closed) && trace[|trace| - 1].frames <= chunks
    ensures forall waits: nat :: ShortPauses(trace, waits) ==> Waits(trace) <= waits * (chunks + 1)
    ensures forall lag: nat :: KeepsUp(trace, moments, enabled, lag) ==> ShortPauses(trace, lag)
  {
    forall waits: nat | ShortPauses(trace, waits)
      ensures Waits(trace) <= waits * (chunks + 1)
    {
      ShortPausesAreFewWaits(trace, moments, enabled, closed, waits);
      MoreFramesMoreWaits(waits, trace[|trace| - 1].frames, chunks);
    }
    forall lag: nat | KeepsUp(trace, moments, enabled, lag)
      ensures ShortPauses(trace, lag)
    {
      if enabled {
        HonestPausesAreShort(trace, moments, closed, lag);
      } else {
        NoPausesAtAll(trace, moments, closed, lag);
      }
    }
  }

  /** Between two turns: what was handed over is what the first `next` chunks hold, and the trace accounts for it. */
  ghost predicate Going(chunks: seq<seq<byte>>, next: nat, frames: seq<seq<byte>>, moments: seq<Moment>, at: nat,
                        trace: seq<Point>, enabled: bool, closed: bool) {
    && next <= |chunks| && Concat(frames) == Joined(chunks, next)
    && Traced(trace, moments, enabled, closed) && |trace| == at + 1
    && SentAre(trace, at + 1, frames) && trace[at].frames == |frames| <= next
    && at <= 3 * next + Waits(trace)
  }

  /** What a run has come to when it ended so. */
  ghost predicate CameTo(end: End, chunks: seq<seq<byte>>, frames: seq<seq<byte>>, moments: seq<Moment>, at: nat,
                         trace: seq<Point>, enabled: bool, closed: bool) {
    && Concat(frames) <= Concat(chunks) && (end.SourceEnded? ==> Concat(frames) == Concat(chunks))
    && Traced(trace, moments, enabled, closed) && |trace| == at + 1
    && SentAre(trace, if end.SinkGone? then at else at + 1, frames)
    && trace[at].frames == |frames| + (if end.SinkGone? then 1 else 0) && trace[at].frames <= |chunks|
    && at <= 3 * |chunks| + Waits(trace) + (if end.Suspended? then 0 else 1)
  }

  lemma CameToAnEnd(end: End, chunks: seq<seq<byte>>, next: nat, frames: seq<seq<byte>>, moments: seq<Moment>, at: nat,
                    trace: seq<Point>, enabled: bool, closed: bool)
    requires Going(chunks, next, frames, moments, at, trace, enabled, closed) && !end.SinkGone?
    requires end.SourceEnded? ==> next == |chunks|
    ensures CameTo(end, chunks, frames, moments, at, trace, enabled, closed)
  {
    JoinedIsPrefix(chunks, next, |chunks|);
  }

  lemma SentTurn(chunks: seq<seq<byte>>, from: nat, next: nat, frames: seq<seq<byte>>, frame: seq<byte>,
                 moments: seq<Moment>, at: nat, trace: seq<Point>, longer: seq<Point>, enabled: bool, closed: bool,
                 turn: Turn)
    requires |trace| > 0 && Going(chunks, from, frames, moments, |trace| - 1, trace, enabled, closed)
    requires from < next <= |chunks| && turn.Sent? && Joined(chunks, from) + frame == Joined(chunks, next)
    requires TurnTraced(trace, longer, at, moments, enabled, closed, turn, frame, next - from)
    ensures Going(chunks, next, frames + [frame], moments, at, longer, enabled, closed)
  {
    ConcatAppend(frames, frame);
    SentAreOfLonger(trace, longer, at, frames);
    SentAreWithFrame(longer, at, frames, frame);
  }

  lemma EndedTurn(chunks: seq<seq<byte>>, from: nat, next: nat, frames: seq<seq<byte>>, frame: seq<byte>,
                  moments: seq<Moment>, at: nat, trace: seq<Point>, longer: seq<Point>, enabled: bool, closed: bool,
                  turn: Turn)
    requires |trace| > 0 && Going(chunks, from, frames, moments, |trace| - 1, trace, enabled, closed)
    requires from <= next <= |chunks| && turn.Ended?
    requires turn.end.SinkGone? ==> from < next
    requires turn.end.SourceEnded? ==> from == |chunks|
    requires TurnTraced(trace, longer, at, moments, enabled, closed, turn, frame, next - from)
    ensures CameTo(turn.end, chunks, frames, moments, at, longer, enabled, closed)
  {
    JoinedIsPrefix(chunks, from, |chunks|);
    SentAreOfLonger(trace, longer, at, frames);
  }

  /** Nobody closes and the sink takes every frame. */
  predicate Undisturbed(moments: seq<Moment>) {
    forall k :: 0 <= k < |moments| ==> !moments[k].closes && moments[k].sinkAccepts
  }

  /** One turn, and what it adds to the frames handed over so far. */
  method Advance(chunks: seq<seq<byte>>, from: nat, sent: seq<seq<byte>>, moments: seq<Moment>, since: nat,
                 flow: FlowControl, ghost longest: nat, ghost trace: seq<Point>, ghost wasClosed: bool)
    returns (turn: Turn, frames: seq<seq<byte>>, next: nat, at: nat, ghost longer: seq<Point>)
    requires forall i :: 0 <= i < |chunks| ==> |chunks[i]| <= longest
    requires OutstandingCap(longest) < U64_SIZE && since < |moments|
    requires Going(chunks, from, sent, moments, since, trace, flow.enabled, wasClosed)
    requires forall i :: 0 <= i < |sent| ==> |sent[i]| <= FrameCap(longest)
    requires flow.closed == (wasClosed || Closes(moments, 0, since))
    requires flow.enabled ==> flow.unacked <= flow.peak <= OutstandingCap(longest)
    requires flow.enabled ==> |Concat(sent)| <= flow.unacked + AckedIn(moments, 0, since)
    requires flow.enabled ==> trace[since].unacked == flow.unacked && UpTo(trace, OutstandingCap(longest))
    modifies flow`unacked, flow`peak, flow`closed
    ensures since < at <= |moments|
    ensures turn.Sent? ==> Going(chunks, next, frames, moments, at, longer, flow.enabled, wasClosed)
    ensures turn.Ended? ==> CameTo(turn.end, chunks, frames, moments, at, longer, flow.enabled, wasClosed)
    ensures turn == Sent(true) ==> next == |chunks|
    ensures turn == Ended(SessionClosed) ==> flow.closed
    ensures turn == Ended(SinkGone) ==> !moments[at - 1].sinkAccepts
    ensures turn == Ended(Suspended) ==> at == |moments|
    ensures forall i :: 0 <= i < |frames| ==> |frames[i]| <= FrameCap(longest)
    ensures flow.closed == (wasClosed || Closes(moments, 0, at))
    ensures flow.enabled ==> flow.unacked <= flow.peak <= OutstandingCap(longest)
    ensures flow.enabled ==> |Concat(frames)| <= flow.unacked + AckedIn(moments, 0, at)
    ensures flow.enabled ==> longer[at].unacked == flow.unacked && UpTo(longer, OutstandingCap(longest))
  {
    var frame;
    turn, frame, next, at, longer := TakeTurn(chunks, from, moments, since, flow, longest, trace, wasClosed);
    if turn.Ended? {
      EndedTurn(chunks, from, next, sent, frame, moments, at, trace, longer, flow.enabled, wasClosed, turn);
      frames := sent;
    } else {
      SentTurn(chunks, from, next, sent, frame, moments, at, trace, longer, flow.enabled, wasClosed, turn);
      ConcatAppend(sent, frame);
      frames := sent + [frame];
    }
  }

  /** Turn after turn, until one ends the run or the moments are used up. */
  method TakeTurns(chunks: seq<seq<byte>>, moments: seq<Moment>, flow: FlowControl, ghost longest: nat)
    returns (frames: seq<seq<byte>>, end: End, at: nat, ghost trace: seq<Point>)
    requires forall i :: 0 <= i < |chunks| ==> |chunks[i]| <= longest
    requires OutstandingCap(longest) < U64_SIZE
    requires flow.unacked == 0 && flow.peak == 0
    modifies flow`unacked, flow`peak, flow`closed
    ensures CameTo(end, chunks, frames, moments, at, trace, flow.enabled, old(flow.closed))
    ensures at <= |moments| && flow.closed == (old(flow.closed) || Closes(moments, 0, at))
    ensures end.SessionClosed? ==> flow.closed
    ensures end.SinkGone? ==> at > 0 && !moments[at - 1].sinkAccepts
    ensures end.Suspended? ==> at == |moments|
    ensures forall i :: 0 <= i < |frames| ==> |frames[i]| <= FrameCap(longest)
    ensures flow.enabled ==> flow.unacked <= flow.peak <= OutstandingCap(longest)
    ensures flow.enabled ==> |Concat(frames)| <= flow.unacked + AckedIn(moments, 0, at)
    ensures flow.enabled ==> trace[at].unacked == flow.unacked && UpTo(trace, OutstandingCap(longest))
  {
    var next := 0;
    frames, at, trace := [], 0, [Point(0, 0, 0, false)];
    NothingWaited(trace[0]);
    while at < |moments|
      invariant at <= |moments|
      invariant Going(chunks, next, frames, moments, at, trace, flow.enabled, old(flow.closed))
      invariant forall i :: 0 <= i < |frames| ==> |frames[i]| <= FrameCap(longest)
      invariant flow.closed == (old(flow.closed) || Closes(moments, 0, at))
      invariant flow.enabled ==> flow.unacked <= flow.peak <= OutstandingCap(longest)
      invariant flow.enabled ==> |Concat(frames)| <= flow.unacked + AckedIn(moments, 0, at)
      invariant flow.enabled ==> trace[at].unacked == flow.unacked && UpTo(trace, OutstandingCap(longest))
      decreases |moments| - at
    {
      var turn;
      turn, frames, next, at, trace :=
        Advance(chunks, next, frames, moments, at, flow, longest, trace, old(flow.closed));
      if turn.Ended? {
        end := turn.end;
        return;
      }
      if turn.last {
        CameToAnEnd(SourceEnded, chunks, next, frames, moments, at, trace, flow.enabled, old(flow.closed));
        end := SourceEnded;
        return;
      }
    }
    end := Suspended;
    CameToAnEnd(Suspended, chunks, next, frames, moments, at, trace, flow.enabled, old(flow.closed));
  }

  /**
   The batcher. No byte is dropped, reordered or invented; no frame and no amount of
   outstanding bytes exceeds its cap; and what was sent beyond the cap has been acknowledged.
   Its trace accounts for every moment: all but three for each chunk are spent waiting, in
   pauses that begin above the high watermark and go on in an open session with more than the
   low one outstanding. So with any renderer that
   acknowledges what it was sent, with whatever lag, a run that is long enough for that lag
   comes to an end, and without a close or a sink error that end is the source's, with
   everything sent.
   */
  method RunBatcher(chunks: seq<seq<byte>>, moments: seq<Moment>, flow: FlowControl, ghost longest: nat)
    returns (frames: seq<seq<byte>>, end: End, at: nat, ghost trace: seq<Point>)
    requires forall i :: 0 <= i < |chunks| ==> |chunks[i]| <= longest
    requires OutstandingCap(longest) < U64_SIZE
    requires flow.unacked == 0 && flow.peak == 0
    modifies flow`unacked, flow`peak, flow`closed
    ensures Concat(frames) <= Concat(chunks)
    ensures end.SourceEnded? ==> Concat(frames) == Concat(chunks)
    ensures at <= |moments| && flow.closed == (old(flow.closed) || Closes(moments, 0, at))
    ensures end.SessionClosed? ==> flow.closed
    ensures end.SinkGone? ==> at > 0 && !moments[at - 1].sinkAccepts
    ensures end.Suspended? ==> at == |moments|
    ensures Traced(trace, moments, flow.enabled, old(flow.closed)) && |trace| == at + 1
    ensures SentAre(trace, if end.SinkGone? then at else at + 1, frames)
    ensures trace[at].frames == |frames| + (if end.SinkGone? then 1 else 0)
    ensures flow.enabled ==> trace[at].unacked == flow.unacked
    ensures flow.enabled ==> UpTo(trace, OutstandingCap(longest))
    ensures at <= 3 * |chunks| + Waits(trace) + (if end.Suspended? then 0 else 1)
    ensures forall waits: nat :: ShortPauses(trace, waits) && |moments| > 3 * |chunks| + waits * (|chunks| + 1) ==>
              !end.Suspended?
    ensures forall lag: nat :: KeepsUp(trace, moments, flow.enabled, lag)
                               && |moments| > 3 * |chunks| + lag * (|chunks| + 1) ==>
              !end.Suspended? &&
              (!old(flow.closed) && Undisturbed(moments) ==> end.SourceEnded? && Concat(frames) == Concat(chunks))
    ensures forall i :: 0 <= i < |frames| ==> |frames[i]| <= FrameCap(longest)
    ensures flow.enabled ==> flow.unacked <= flow.peak <= OutstandingCap(longest)
    ensures flow.enabled ==> |Concat(frames)| <= flow.unacked + AckedIn(moments, 0, at)
  {
    frames, end, at, trace := TakeTurns(chunks, moments, flow, longest);
    ShortPausesEnd(trace, moments, flow.enabled, old(flow.closed), |chunks|);
  }

  lemma NothingWaited(p: Point)
    requires !p.waiting
    ensures Waits([p]) == 0
  {
    assert [p][..0] == [];
  }
}
