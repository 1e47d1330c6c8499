/**
 The batcher, the renderer and everybody else who may acknowledge bytes or close the
 session, as one state machine under sequential consistency.

 One step is one atomic access: `ack` is split into its load, each attempt of its
 compare-exchange (which may fail spuriously) and its notify; `close` into its store and its
 notify; the waiter into register, the two loads of its re-check, and the parked await. The
 batcher's own frame is abstracted to its length here; the bytes themselves are the business
 of module `Stream`.
 */
module FlowProtocol {
  import opened Wrappers
  import opened Flow

  /** Where the batcher is. The first four after `AtTop` are inside `wait_for_capacity`. */
  datatype Batcher =
    | AtTop
    | Registering
    | CheckingClosed
    | CheckingUnacked
    | Parked
    | CheckingStop
    | Receiving
    | Counting(bytes: nat)
    | Peaking(bytes: nat, now: nat)
    | Sending(bytes: nat)
    | Finished

  /** Where one call of `ack` or `close` is. */
  datatype Call =
    | AckLoad(bytes: nat)
    | AckSwap(bytes: nat, expected: nat)
    | CloseStore
    | Notify

  datatype State = State(
    enabled: bool,
    chunk: nat,
    unacked: nat,
    peak: nat,
    closed: bool,
    notified: bool,
    batcher: Batcher,
    queue: seq<nat>,
    pending: nat,
    renderer: Option<Call>,
    callers: map<nat, Call>)

  /** What the scheduler, the source and the sink decide. */
  datatype Choice = Plain | Frame(bytes: nat) | SourceEnds | SinkTakes(last: bool) | SinkFails

  datatype Step =
    | Batch(choice: Choice)
    | Render(spurious: bool)
    | Continue(id: nat, spurious: bool)
    | Spawn(id: nat, call: Call)

  /** A caller thread's atomic access: the shared state after it and what it does next. */
  datatype Effect = Effect(unacked: nat, closed: bool, notifies: bool, next: Option<Call>)

  function Access(call: Call, unacked: nat, closed: bool, spurious: bool): Effect {
    match call
    case AckLoad(bytes) => Effect(unacked, closed, false, Some(AckSwap(bytes, unacked)))
    case AckSwap(bytes, expected) =>
      if unacked == expected && !spurious
      then Effect(SaturatingSub(expected, bytes), closed, false, Some(Notify))
      else Effect(unacked, closed, false, Some(AckSwap(bytes, unacked)))
    case CloseStore => Effect(unacked, true, false, Some(Notify))
    case Notify => Effect(unacked, closed, true, None)
  }

  /** The batcher has a registered `Notified` future. */
  predicate Listening(b: Batcher) {
    b.CheckingClosed? || b.CheckingUnacked? || b.Parked?
  }

  predicate Paused(s: State) {
    s.batcher.Registering? || Listening(s.batcher)
  }

  predicate BatcherMay(s: State, choice: Choice) {
    match s.batcher
    case Parked => choice.Plain? && s.notified
    case Receiving => choice.SourceEnds? || (choice.Frame? && choice.bytes <= FrameCap(s.chunk))
    case Sending(_) => choice.SinkTakes? || choice.SinkFails?
    case Finished => false
    case _ => choice.Plain?
  }

  predicate RendererMay(s: State) {
    s.renderer.Some? || s.queue != []
  }

  predicate Enabled(s: State, step: Step) {
    match step
    case Batch(choice) => BatcherMay(s, choice)
    case Render(spurious) => RendererMay(s) && (spurious ==> s.renderer.Some? && s.renderer.value.AckSwap?)
    case Continue(id, spurious) => id in s.callers
    case Spawn(id, call) => id !in s.callers && (call.AckLoad? || call.CloseStore?)
  }

  function BatcherStep(s: State, choice: Choice): State
    requires BatcherMay(s, choice)
  {
    match s.batcher
    case AtTop =>
      s.(batcher := if !s.enabled || s.unacked <= HIGH_WATERMARK then CheckingStop else Registering)
    case Registering => s.(batcher := CheckingClosed, notified := false)
    case CheckingClosed => s.(batcher := if s.closed then CheckingStop else CheckingUnacked)
    case CheckingUnacked => s.(batcher := if s.unacked <= LOW_WATERMARK then CheckingStop else Parked)
    case Parked => s.(batcher := Registering)
    case CheckingStop => s.(batcher := if s.closed then Finished else Receiving)
    case Receiving => s.(batcher := if choice.SourceEnds? then Finished else Counting(choice.bytes))
    case Counting(bytes) =>
      var now := FetchAdd(s.unacked, bytes);
      s.(batcher := Peaking(bytes, now), unacked := now)
    case Peaking(bytes, now) => s.(batcher := Sending(bytes), peak := if now > s.peak then now else s.peak)
    case Sending(bytes) =>
      if choice.SinkFails? then s.(batcher := Finished)
      else s.(batcher := if choice.last then Finished else AtTop, queue := s.queue + [bytes])
    case Finished => s
  }

  function NotifyIf(s: State, notifies: bool): State {
    if notifies && Listening(s.batcher) then s.(notified := true) else s
  }

  function RendererStep(s: State, spurious: bool): State
    requires RendererMay(s)
  {
    match s.renderer
    case None =>
      var pending := s.pending + s.queue[0];
      if pending >= ACK_CHUNK
      then s.(queue := s.queue[1..], pending := 0, renderer := Some(AckLoad(pending)))
      else s.(queue := s.queue[1..], pending := pending)
    case Some(call) =>
      var e := Access(call, s.unacked, s.closed, spurious);
      NotifyIf(s.(unacked := e.unacked, closed := e.closed, renderer := e.next), e.notifies)
  }

  function CallerStep(s: State, id: nat, spurious: bool): State
    requires id in s.callers
  {
    var e := Access(s.callers[id], s.unacked, s.closed, spurious);
    var callers := if e.next.Some? then s.callers[id := e.next.value] else s.callers - {id};
    NotifyIf(s.(unacked := e.unacked, closed := e.closed, callers := callers), e.notifies)
  }

  function Do(s: State, step: Step): State
    requires Enabled(s, step)
  {
    match step
    case Batch(choice) => BatcherStep(s, choice)
    case Render(spurious) => RendererStep(s, spurious)
    case Continue(id, spurious) => CallerStep(s, id, spurious)
    case Spawn(id, call) => s.(callers := s.callers[id := call])
  }

  /** Every step of the schedule is enabled when its turn comes. */
  predicate Possible(s: State, run: seq<Step>)
    decreases |run|
  {
    run == [] || (Enabled(s, run[0]) && Possible(Do(s, run[0]), run[1..]))
  }

  function After(s: State, run: seq<Step>): State
    requires Possible(s, run)
    decreases |run|
  {
    if run == [] then s else After(Do(s, run[0]), run[1..])
  }

  /** A fresh controller with the batcher at the top of its loop and no call under way. */
  predicate Init(s: State) {
    && s == State(s.enabled, s.chunk, 0, 0, false, false, AtTop, [], 0, None, map[])
    && OutstandingCap(s.chunk) < U64_SIZE
  }

  // ------------------------------------------------------------------ the invariant

  /** Bytes an acknowledgement under way will take off the counter. */
  function Acknowledging(call: Option<Call>): nat {
    if call.Some? && (call.value.AckLoad? || call.value.AckSwap?) then call.value.bytes else 0
  }

  /** Bytes the batcher has counted and not yet handed over. */
  function HandingOver(b: Batcher): nat {
    if b.Peaking? || b.Sending? then b.bytes else 0
  }

  /** Everything the renderer still has to account for. */
  function Owed(s: State): nat {
    Sum(s.queue) + s.pending + Acknowledging(s.renderer) + HandingOver(s.batcher)
  }

  /** Some call stands between its store and its notify. */
  predicate NotifyComing(s: State) {
    (s.renderer.Some? && s.renderer.value.Notify?) || exists id :: id in s.callers && s.callers[id].Notify?
  }

  /** No wake-up is missed: reason to resume means notified, or about to be. */
  predicate WakeUpSafe(s: State) {
    && (s.batcher.Parked? && (s.closed || s.unacked <= LOW_WATERMARK) ==> s.notified || NotifyComing(s))
    && (s.batcher.CheckingUnacked? && s.closed ==> s.notified || NotifyComing(s))
  }

  predicate Bounded(s: State) {
    && OutstandingCap(s.chunk) < U64_SIZE
    && (s.enabled ==> s.unacked <= OutstandingCap(s.chunk) && s.peak <= OutstandingCap(s.chunk))
    && (s.enabled && s.batcher.Peaking? ==> s.batcher.now <= OutstandingCap(s.chunk))
    && (s.enabled && (s.batcher.Receiving? || s.batcher.Counting?) ==> s.unacked <= HIGH_WATERMARK)
    && (s.enabled && s.batcher.CheckingStop? && !s.closed ==> s.unacked <= HIGH_WATERMARK)
    && ((s.batcher.Counting? || s.batcher.Peaking? || s.batcher.Sending?) ==> s.batcher.bytes <= FrameCap(s.chunk))
  }

  /** The counter never claims more than the renderer can still acknowledge. */
  predicate Accounted(s: State) {
    && s.pending < ACK_CHUNK
    && (s.enabled && !s.batcher.Finished? ==> s.unacked <= Owed(s))
  }

  predicate Inv(s: State) {
    && WakeUpSafe(s) && Bounded(s) && Accounted(s)
    && (Paused(s) ==> s.enabled)
    && (s.renderer.Some? ==> !s.renderer.value.CloseStore?)
  }

  lemma BatcherKeepsInv(s: State, choice: Choice)
    requires Inv(s) && BatcherMay(s, choice)
    ensures Inv(BatcherStep(s, choice))
  {
    var t := BatcherStep(s, choice);
    assert NotifyComing(t) == NotifyComing(s);
    if s.batcher.Sending? {
      SumAppend(s.queue, s.batcher.bytes);
    }
  }

  lemma RendererKeepsInv(s: State, spurious: bool)
    requires Inv(s) && RendererMay(s)
    ensures Inv(RendererStep(s, spurious))
  {
    var t := RendererStep(s, spurious);
    if NotifyComing(s) && !(s.renderer.Some? && s.renderer.value.Notify?) {
      var id :| id in s.callers && s.callers[id].Notify?;
      assert id in t.callers && t.callers[id].Notify?;
    }
  }

  lemma CallerKeepsInv(s: State, id: nat, spurious: bool)
    requires Inv(s) && id in s.callers
    ensures Inv(CallerStep(s, id, spurious))
  {
    var t := CallerStep(s, id, spurious);
    var e := Access(s.callers[id], s.unacked, s.closed, spurious);
    if e.next.Some? {
      assert id in t.callers && t.callers[id] == e.next.value;
    }
    if NotifyComing(s) && !s.callers[id].Notify? && !(s.renderer.Some? && s.renderer.value.Notify?) {
      var other :| other in s.callers && s.callers[other].Notify?;
      assert other in t.callers && t.callers[other].Notify?;
    }
  }

  lemma StepKeepsInv(s: State, step: Step)
    requires Inv(s) && Enabled(s, step)
    ensures Inv(Do(s, step))
  {
    match step
    case Batch(choice) => BatcherKeepsInv(s, choice);
    case Render(spurious) => RendererKeepsInv(s, spurious);
    case Continue(id, spurious) => CallerKeepsInv(s, id, spurious);
    case Spawn(id, call) =>
      var t := Do(s, step);
      if exists other :: other in s.callers && s.callers[other].Notify? {
        var other :| other in s.callers && s.callers[other].Notify?;
        assert other in t.callers && t.callers[other].Notify?;
      }
  }

  lemma {:induction false} RunKeepsInv(s: State, run: seq<Step>)
    requires Inv(s) && Possible(s, run)
    ensures Inv(After(s, run))
    decreases |run|
  {
    if run != [] {
      StepKeepsInv(s, run[0]);
      RunKeepsInv(Do(s, run[0]), run[1..]);
    }
  }

  // ------------------------------------------------------------------ main results

  /**
   In every interleaving: a batcher parked although it has reason to resume is already
   notified, or a call stands between its store and its notify.
   */
  lemma {:induction false} NoMissedWakeUp(s: State, run: seq<Step>)
    requires Init(s) && Possible(s, run)
    ensures var t := After(s, run);
            t.batcher.Parked? && (t.closed || t.unacked <= LOW_WATERMARK) ==> t.notified || NotifyComing(t)
  {
    RunKeepsInv(s, run);
  }

  /** With flow control on, the counter and its recorded peak stay under the claimed cap. */
  lemma {:induction false} OutstandingIsBounded(s: State, run: seq<Step>)
    requires Init(s) && s.enabled && Possible(s, run)
    ensures After(s, run).unacked <= OutstandingCap(s.chunk)
    ensures After(s, run).peak <= OutstandingCap(s.chunk)
  {
    RunKeepsInv(s, run);
    ConfigIsFixed(s, run);
  }

  lemma {:induction false} ConfigIsFixed(s: State, run: seq<Step>)
    requires Possible(s, run)
    ensures After(s, run).enabled == s.enabled && After(s, run).chunk == s.chunk
    decreases |run|
  {
    if run != [] {
      ConfigIsFixed(Do(s, run[0]), run[1..]);
    }
  }

  /** There is reason to end a pause. */
  predicate MayResume(s: State) {
    s.closed || s.unacked <= LOW_WATERMARK
  }

  /**
   The watermark hysteresis cannot deadlock. A paused batcher with reason to resume can move
   itself or has a notify on its way; without one the renderer itself has something to do:
   what it holds back stays below `ACK_CHUNK`, which stays below the low watermark.
   */
  lemma PauseIsNeverADeadlock(s: State)
    requires Inv(s) && Paused(s)
    ensures if MayResume(s) then BatcherMay(s, Plain) || NotifyComing(s) else RendererMay(s)
  {
    assert s.queue == [] ==> Sum(s.queue) == 0;
  }

  /** An upper bound on what the renderer can still do before the batcher resumes. */
  function Rank(s: State): nat {
    4 * |s.queue| + 2 * s.unacked +
    match s.renderer
    case None => 0
    case Some(AckLoad(_)) => 3
    case Some(AckSwap(_, expected)) => if expected != s.unacked then 3 else 2
    case Some(_) => 1
  }

  predicate IsRendererWork(step: Step) {
    step.Render? && !step.spurious
  }

  /** Inside a pause no step raises the rank and every renderer step lowers it. */
  lemma PauseBurnsRank(s: State, step: Step)
    requires Inv(s) && Enabled(s, step) && Paused(s) && Paused(Do(s, step))
    ensures Rank(Do(s, step)) + (if IsRendererWork(step) then 1 else 0) <= Rank(s)
  {
    if step.Continue? {
      var e := Access(s.callers[step.id], s.unacked, s.closed, step.spurious);
      assert e.unacked <= s.unacked;
    }
  }

  predicate PausedThroughout(s: State, run: seq<Step>)
    requires Possible(s, run)
    decreases |run|
  {
    Paused(s) && (run == [] || PausedThroughout(Do(s, run[0]), run[1..]))
  }

  function RendererWork(run: seq<Step>): nat {
    if run == [] then 0 else (if IsRendererWork(run[0]) then 1 else 0) + RendererWork(run[1..])
  }

  lemma {:induction false} PauseEndsWithinRank(s: State, run: seq<Step>)
    requires Inv(s) && Possible(s, run) && PausedThroughout(s, run)
    ensures RendererWork(run) + Rank(After(s, run)) <= Rank(s)
    ensures Inv(After(s, run)) && Paused(After(s, run))
    decreases |run|
  {
    if run != [] {
      StepKeepsInv(s, run[0]);
      PauseBurnsRank(s, run[0]);
      PauseEndsWithinRank(Do(s, run[0]), run[1..]);
    }
  }

  /**
   Every pause ends: after any run from the start and any further run `wait` spent paused, the
   renderer has taken at most `Rank` steps of it. As long as there is no reason to resume it
   can take another, and once there is one the batcher can move or is about to be woken —
   whatever the other acknowledgers, the closers and failing compare-exchanges do.
   */
  lemma {:induction false} EveryPauseEnds(s: State, run: seq<Step>, wait: seq<Step>)
    requires Init(s) && Possible(s, run)
    requires Possible(After(s, run), wait) && PausedThroughout(After(s, run), wait)
    ensures RendererWork(wait) <= Rank(After(s, run))
    ensures RendererWork(wait) == Rank(After(s, run)) ==> MayResume(After(After(s, run), wait))
    ensures var t := After(After(s, run), wait);
            if MayResume(t) then BatcherMay(t, Plain) || NotifyComing(t) else RendererMay(t)
  {
    RunKeepsInv(s, run);
    PauseEndsWithinRank(After(s, run), wait);
    PauseIsNeverADeadlock(After(After(s, run), wait));
  }

  /**
   How many more steps a batcher with reason to resume can take without resuming. The most are
   left to one that had looked for a close just before it came.
   */
  function StepsToResume(s: State): nat {
    match s.batcher
    case CheckingUnacked => if s.unacked <= LOW_WATERMARK then 0 else 4
    case Parked => 3
    case Registering => 2
    case CheckingClosed => 1
    case _ => 0
  }

  /** Inside a pause nobody takes back a reason to resume, and the batcher's own steps use up what it has left. */
  lemma ReasonStays(s: State, step: Step)
    requires Inv(s) && Enabled(s, step) && Paused(s) && Paused(Do(s, step)) && MayResume(s)
    ensures MayResume(Do(s, step))
    ensures StepsToResume(Do(s, step)) + (if step.Batch? then 1 else 0) <= StepsToResume(s)
  {
  }

  lemma PausedAtFirst(s: State, run: seq<Step>)
    requires Possible(s, run) && run != [] && PausedThroughout(s, run)
    ensures Paused(s) && Paused(Do(s, run[0])) && PausedThroughout(Do(s, run[0]), run[1..])
  {
  }

  /**
   With a reason to resume the batcher resumes: in any run that it spends paused from then on
   it takes at most four steps of its own, so a fifth one ends the pause at the latest.
   */
  lemma {:induction false} ReasonEndsThePause(s: State, run: seq<Step>)
    requires Inv(s) && MayResume(s) && Possible(s, run) && PausedThroughout(s, run)
    ensures BatcherWork(run) + StepsToResume(After(s, run)) <= StepsToResume(s) <= 4
    ensures MayResume(After(s, run))
    decreases |run|
  {
    if run != [] {
      StepKeepsInv(s, run[0]);
      PausedAtFirst(s, run);
      ReasonStays(s, run[0]);
      ReasonEndsThePause(Do(s, run[0]), run[1..]);
    }
  }

  /** How many more steps a batcher of a closed session can take. */
  function StepsToFinish(b: Batcher): nat {
    match b
    case Finished => 0
    case CheckingStop => 1
    case CheckingClosed => 2
    case Registering => 3
    case Parked => 4
    case CheckingUnacked => 5
    case AtTop => 4
    case Sending(_) => 5
    case Peaking(_, _) => 6
    case Counting(_) => 7
    case Receiving => 8
  }

  function BatcherWork(run: seq<Step>): nat {
    if run == [] then 0 else (if run[0].Batch? then 1 else 0) + BatcherWork(run[1..])
  }

  /** Closing releases the batcher for good: it ends within eight of its own steps. */
  lemma {:induction false} CloseEndsTheBatcher(s: State, run: seq<Step>)
    requires s.closed && Possible(s, run)
    ensures After(s, run).closed
    ensures BatcherWork(run) + StepsToFinish(After(s, run).batcher) <= StepsToFinish(s.batcher) <= 8
    decreases |run|
  {
    if run != [] {
      CloseEndsTheBatcher(Do(s, run[0]), run[1..]);
    }
  }
}
