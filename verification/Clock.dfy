/**
 The hybrid logical clock: wall time in milliseconds, a counter that breaks ties within one
 millisecond and carries into the next, and the device that owns the clock.
 */
module Clock {
  import opened Bytes

  /** How far ahead of this device another one's clock may push the local clock: one day. */
  const MAX_DRIFT_MS: nat := 24 * 60 * 60 * 1000

  const COUNTERS: nat := 0x1_0000_0000
  const LAST_MS: u64 := 0xffff_ffff_ffff_ffff
  const LAST_COUNTER: u32 := 0xffff_ffff

  datatype Hlc = Hlc(wall: u64, counter: u32, device: u32)

  function Min(a: nat, b: nat): nat { if a <= b then a else b }

  function Max(a: nat, b: nat): nat { if a <= b then b else a }

  /** The moment right after `(wall, counter)`; both parts saturate at their end. */
  function Step(wall: u64, counter: u32): (u64, u32) {
    if counter < LAST_COUNTER then (wall, counter + 1)
    else (if wall < LAST_MS then wall + 1 else wall, 0)
  }

  function Tick(h: Hlc, now: u64): Hlc {
    if now > h.wall then Hlc(now, 0, h.device)
    else
      var (wall, counter) := Step(h.wall, h.counter);
      Hlc(wall, counter, h.device)
  }

  /** A remote stamp, its wall time clamped to one day ahead of `now`. */
  function Clamp(remote: Hlc, now: u64): Hlc {
    remote.(wall := Min(remote.wall, Min(now + MAX_DRIFT_MS, LAST_MS)))
  }

  function Merge(h: Hlc, remote: Hlc, now: u64): Hlc {
    var clamped := Clamp(remote, now);
    var latest: u64 := Max(Max(now, h.wall), clamped.wall);
    var (wall, counter) :=
      if latest == h.wall && latest == clamped.wall then Step(latest, Max(h.counter, clamped.counter))
      else if latest == h.wall then Step(latest, h.counter)
      else if latest == clamped.wall then Step(latest, clamped.counter)
      else (latest, 0);
    Hlc(wall, counter, h.device)
  }

  /** The order of stamps: wall time, then counter, then device. */
  predicate Less(a: Hlc, b: Hlc) {
    || a.wall < b.wall
    || (a.wall == b.wall && a.counter < b.counter)
    || (a.wall == b.wall && a.counter == b.counter && a.device < b.device)
  }

  /** Wall time and counter read as one number. */
  function Time(h: Hlc): nat {
    h.wall * COUNTERS + h.counter
  }

  /** The last stamp there is. */
  predicate Top(h: Hlc) {
    h.wall == LAST_MS && h.counter == LAST_COUNTER
  }

  const LAST_TIME: nat := LAST_MS * COUNTERS + LAST_COUNTER

  /** Stamps are ordered by their time, ties by device; so the order is total. */
  lemma LessIsTime(a: Hlc, b: Hlc)
    ensures Less(a, b) <==> Time(a) < Time(b) || (Time(a) == Time(b) && a.device < b.device)
    ensures Less(a, b) || Less(b, a) || a == b
  {
    assert a.counter < COUNTERS && b.counter < COUNTERS;
    if a.wall < b.wall {
      assert a.wall * COUNTERS + COUNTERS <= b.wall * COUNTERS;
    } else if b.wall < a.wall {
      assert b.wall * COUNTERS + COUNTERS <= a.wall * COUNTERS;
    }
  }

  /** A step is exactly one tick of time, carry included, everywhere below the top. */
  lemma StepIsSuccessor(h: Hlc)
    ensures var (wall, counter) := Step(h.wall, h.counter);
            Time(Hlc(wall, counter, h.device)) == (if Top(h) then LAST_MS * COUNTERS else Time(h) + 1)
  {
    var (wall, counter) := Step(h.wall, h.counter);
    if h.counter == LAST_COUNTER && h.wall < LAST_MS {
      assert wall * COUNTERS == h.wall * COUNTERS + COUNTERS;
    }
  }

  /** A tick is the earliest stamp after the clock that is not before `now`. */
  lemma TickIsMax(h: Hlc, now: u64)
    requires !Top(h)
    ensures Time(Tick(h, now)) == Max(Time(h) + 1, now * COUNTERS)
    ensures Tick(h, now).device == h.device
  {
    StepIsSuccessor(h);
    if now > h.wall {
      assert now * COUNTERS >= h.wall * COUNTERS + COUNTERS;
    } else {
      assert now * COUNTERS <= h.wall * COUNTERS;
    }
  }

  /** A tick sorts after the clock it came from, except at the very top. */
  lemma TickAdvances(h: Hlc, now: u64)
    ensures Less(h, Tick(h, now)) <==> !(Top(h) && now <= h.wall)
  {
    if !Top(h) {
      TickIsMax(h, now);
      LessIsTime(h, Tick(h, now));
    }
  }

  /**
   A merge is the earliest stamp after the local clock and after the clamped remote one that
   is not before `now`: the four cases and the carry come down to one maximum.
   */
  lemma MergeIsMax(h: Hlc, remote: Hlc, now: u64)
    requires !Top(h) && !Top(Clamp(remote, now))
    ensures Time(Merge(h, remote, now)) == Max(Max(Time(h), Time(Clamp(remote, now))) + 1, now * COUNTERS)
    ensures Merge(h, remote, now).device == h.device
  {
    var c := Clamp(remote, now);
    var latest: u64 := Max(Max(now, h.wall), c.wall);
    MsGap(h.wall, c.wall);
    MsGap(now, h.wall);
    MsGap(now, c.wall);
    if latest == h.wall && latest == c.wall {
      StepIsSuccessor(if h.counter <= c.counter then c else h);
    } else if latest == h.wall {
      StepIsSuccessor(h);
    } else if latest == c.wall {
      StepIsSuccessor(c);
    }
  }

  lemma MsGap(a: u64, b: u64)
    ensures a < b ==> a * COUNTERS + COUNTERS <= b * COUNTERS
    ensures b < a ==> b * COUNTERS + COUNTERS <= a * COUNTERS
  {
  }

  /**
   After merging a remote stamp the clock is past it exactly when that stamp lay within the
   drift or was not ahead of the local clock anyway.
   */
  lemma MergePassesRemote(h: Hlc, remote: Hlc, now: u64)
    requires !Top(h) && now + MAX_DRIFT_MS < LAST_MS
    ensures Time(remote) < Time(Merge(h, remote, now)) <==>
              remote.wall <= now + MAX_DRIFT_MS || Time(remote) <= Time(h)
  {
    MergeIsMax(h, remote, now);
    var c := Clamp(remote, now);
    if remote.wall > now + MAX_DRIFT_MS {
      MsGap(c.wall, remote.wall);
      MsGap(now, remote.wall);
    }
  }

  /** An edit made after receiving a stamp within the drift sorts after that stamp. */
  lemma EditAfterMergeSortsAfter(h: Hlc, remote: Hlc, now: u64, later: u64)
    requires !Top(h) && now + MAX_DRIFT_MS < LAST_MS
    requires remote.wall <= now + MAX_DRIFT_MS
    requires !Top(Merge(h, remote, now))
    ensures Less(remote, Tick(Merge(h, remote, now), later))
  {
    var merged := Merge(h, remote, now);
    MergePassesRemote(h, remote, now);
    TickIsMax(merged, later);
    LessIsTime(remote, Tick(merged, later));
  }

  // ------------------------------------------------------------------ whole runs

  datatype Call = Ticked(now: u64) | Arrived(remote: Hlc, now: u64)

  function Run(h: Hlc, calls: seq<Call>): Hlc {
    if calls == [] then h
    else
      var before := Run(h, calls[..|calls| - 1]);
      match calls[|calls| - 1]
      case Ticked(now) => Tick(before, now)
      case Arrived(remote, now) => Merge(before, remote, now)
  }

  /** The last stamp a remote clock may reach when the local time is at most `latest`. */
  function DriftLimit(latest: nat): nat {
    (latest + MAX_DRIFT_MS) * COUNTERS + LAST_COUNTER
  }

  /**
   However hostile the stamps that arrive, a run of k calls with local times up to `latest`
   advances the clock by at least k and pushes it at most k past the later of where it
   started and the drift limit.
   */
  lemma {:induction false} HostileClocksAreBounded(h: Hlc, calls: seq<Call>, latest: nat)
    requires latest + MAX_DRIFT_MS < LAST_MS
    requires forall i :: 0 <= i < |calls| ==> calls[i].now <= latest
    requires Max(Time(h), DriftLimit(latest)) + |calls| < LAST_TIME
    ensures Time(h) + |calls| <= Time(Run(h, calls)) <= Max(Time(h), DriftLimit(latest)) + |calls|
    ensures Run(h, calls).device == h.device
  {
    if calls != [] {
      var init := calls[..|calls| - 1];
      HostileClocksAreBounded(h, init, latest);
      var before := Run(h, init);
      var last := calls[|calls| - 1];
      assert last.now * COUNTERS <= latest * COUNTERS;
      assert !Top(before);
      match last
      case Ticked(now) => TickIsMax(before, now);
      case Arrived(remote, now) =>
        MergeIsMax(before, remote, now);
        var c := Clamp(remote, now);
        assert c.wall * COUNTERS <= (latest + MAX_DRIFT_MS) * COUNTERS;
    }
  }
}
