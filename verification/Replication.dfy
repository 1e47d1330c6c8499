/**
 Devices that edit, delete and exchange records, as one state machine. A transaction of the
 store ticks the clock once and stamps every row it changes with that tick.

 A delivery may repeat, reorder and batch writes at will. What a device does with a delivered
 record is what its store does: a tombstone for a record it does not hold is skipped, anything
 else goes by `Resolve`; once per batch the clock merges the newest stamp that arrived.
 */
module Replication {
  import opened Bytes
  import opened Wrappers
  import opened Clock
  import opened LastWriter

  type Record = nat

  /** One version of one record, as it travels. */
  datatype Write = Write(record: Record, version: Version, payload: string)

  // ------------------------------------------------------------------ one record at one device

  /** The guard of the one lossy branch: a tombstone for a record that is not held. */
  predicate Skips(row: Option<Write>, w: Write) {
    row.None? && w.version.deleted
  }

  function ApplyOne(row: Option<Write>, w: Write): Option<Write> {
    if Skips(row, w) then None
    else if row.None? then Some(w)
    else if Resolve(row.value.version, w.version).Remote? then Some(w)
    else row
  }

  function ApplySeq(row: Option<Write>, ws: seq<Write>): Option<Write> {
    if ws == [] then row else ApplyOne(ApplySeq(row, ws[..|ws| - 1]), ws[|ws| - 1])
  }

  lemma ApplyTwo(row: Option<Write>, a: Write, b: Write)
    ensures ApplySeq(row, [a, b]) == ApplyOne(ApplyOne(row, a), b)
  {
    assert [a, b][..1] == [a];
    assert ApplySeq(row, [a]) == ApplyOne(ApplySeq(row, []), a);
  }

  /** Two writes of one record with the same version are the same write. */
  predicate SameVersionSameWrite(a: Write, b: Write) {
    a.version == b.version ==> a == b
  }

  /**
   Two deliveries of one record commute, for every state of the device, except exactly when
   it does not hold the record and one of the two, not both, is a tombstone.
   */
  lemma DeliveriesCommute(row: Option<Write>, a: Write, b: Write)
    requires SameVersionSameWrite(a, b)
    requires row.Some? ==> SameVersionSameWrite(row.value, a) && SameVersionSameWrite(row.value, b)
    ensures ApplySeq(row, [a, b]) == ApplySeq(row, [b, a]) <==>
            !(row.None? && a.version.deleted != b.version.deleted)
  {
    ApplyTwo(row, a, b);
    ApplyTwo(row, b, a);
    ResolveIsMaximum(a.version, b.version);
    ResolveIsMaximum(b.version, a.version);
    if row.Some? {
      ResolveIsMaximum(row.value.version, a.version);
      ResolveIsMaximum(row.value.version, b.version);
    }
  }

  /** Delivering the same write again changes nothing. */
  lemma RedeliveryIsIdempotent(row: Option<Write>, w: Write)
    ensures ApplyOne(ApplyOne(row, w), w) == ApplyOne(row, w)
  {
    ResolveIsMaximum(w.version, w.version);
    if row.Some? {
      ResolveIsMaximum(row.value.version, w.version);
    }
  }

  function FirstLive(ws: seq<Write>): (i: nat)
    ensures i <= |ws|
    ensures forall k :: 0 <= k < i ==> ws[k].version.deleted
    ensures i < |ws| ==> !ws[i].version.deleted
  {
    if ws == [] || !ws[0].version.deleted then 0 else 1 + FirstLive(ws[1..])
  }

  predicate IsMaximum(row: Option<Write>, ws: seq<Write>) {
    && row.Some? && row.value in ws
    && forall i :: 0 <= i < |ws| ==> !Below(row.value.version, ws[i].version)
  }

  /**
   What a device that starts without the record holds after any deliveries of it: nothing if
   only tombstones came, otherwise the maximum of everything from the first live one on.
   */
  lemma {:induction false} DeliveredRow(ws: seq<Write>)
    ensures FirstLive(ws) == |ws| ==> ApplySeq(None, ws) == None
    ensures FirstLive(ws) < |ws| ==> IsMaximum(ApplySeq(None, ws), ws[FirstLive(ws)..])
  {
    if ws != [] {
      var init := ws[..|ws| - 1];
      var last := ws[|ws| - 1];
      DeliveredRow(init);
      FirstLiveOfPrefix(ws);
      var f := FirstLive(ws);
      if FirstLive(init) < |init| {
        SliceOfLonger(ws, f);
        OneMoreDelivery(ApplySeq(None, init), init[f..], last);
      } else if !last.version.deleted {
        assert ws[f..] == [last];
      }
    }
  }

  lemma SliceOfLonger(ws: seq<Write>, f: nat)
    requires f < |ws|
    ensures ws[f..] == ws[..|ws| - 1][f..] + [ws[|ws| - 1]]
  {
  }

  lemma OneMoreDelivery(row: Option<Write>, ws: seq<Write>, last: Write)
    requires IsMaximum(row, ws)
    ensures IsMaximum(ApplyOne(row, last), ws + [last])
  {
    var held := row.value;
    ResolveIsMaximum(held.version, last.version);
    ResolveIsMaximum(last.version, last.version);
    forall i | 0 <= i < |ws|
      ensures !Below(ApplyOne(row, last).value.version, ws[i].version)
    {
      NotBelowIsTransitive(last.version, held.version, ws[i].version);
    }
    assert last in ws + [last];
  }

  lemma {:induction false} FirstLiveOfPrefix(ws: seq<Write>)
    requires ws != []
    ensures FirstLive(ws) < |ws| - 1 ==> FirstLive(ws[..|ws| - 1]) == FirstLive(ws)
    ensures FirstLive(ws) >= |ws| - 1 ==> FirstLive(ws[..|ws| - 1]) == |ws| - 1
  {
    if |ws| > 1 && ws[0].version.deleted {
      assert ws[..|ws| - 1][1..] == ws[1..][..|ws| - 2];
      FirstLiveOfPrefix(ws[1..]);
    }
  }

  lemma NotBelowIsTransitive(top: Version, mid: Version, low: Version)
    ensures !Below(mid, low) && (mid == top || Below(mid, top)) ==> !Below(top, low)
  {
  }

  /** Every tombstone that came before the first live version is matched or outranked from there on. */
  predicate EarlyTombstonesCovered(ws: seq<Write>) {
    forall i :: 0 <= i < FirstLive(ws) ==>
      exists j :: FirstLive(ws) <= j < |ws| && !Below(ws[j].version, ws[i].version)
  }

  /**
   So a device ends with the maximum of everything delivered exactly when no tombstone that
   came before the first live version outranks all that came from there on.
   */
  lemma DeliveryReachesMaximum(ws: seq<Write>)
    requires FirstLive(ws) < |ws|
    ensures IsMaximum(ApplySeq(None, ws), ws) <==> EarlyTombstonesCovered(ws)
  {
    DeliveredRow(ws);
    var f := FirstLive(ws);
    var held := ApplySeq(None, ws).value;
    HeldIsOneOf(held, ws, f);
    forall j | f <= j < |ws|
      ensures !Below(held.version, ws[j].version)
    {
      assert ws[j] == ws[f..][j - f];
    }
    if EarlyTombstonesCovered(ws) {
      forall i | 0 <= i < |ws|
        ensures !Below(held.version, ws[i].version)
      {
        if i < f {
          var j :| f <= j < |ws| && !Below(ws[j].version, ws[i].version);
          NotBelowTransfers(held.version, ws[j].version, ws[i].version);
        }
      }
    }
  }

  lemma HeldIsOneOf(held: Write, ws: seq<Write>, f: nat)
    requires f <= |ws| && held in ws[f..]
    ensures held in ws && exists j :: f <= j < |ws| && ws[j] == held
  {
    var k :| 0 <= k < |ws[f..]| && ws[f..][k] == held;
    assert ws[f + k] == held;
  }

  lemma NotBelowTransfers(top: Version, mid: Version, low: Version)
    requires !Below(top, mid) && !Below(mid, low)
    ensures !Below(top, low)
  {
    ResolveIsMaximum(top, mid);
    ResolveIsMaximum(mid, low);
  }

  // ------------------------------------------------------------------ the whole system

  /**
   A device. `rows` and `clock` are what it stores; `seen` records, for the proofs, every
   write it ever made or was delivered.
   */
  datatype Replica = Replica(clock: Hlc, rows: map<Record, Write>, seen: set<Write>)

  /** `network` is every write ever made; any of it may be delivered to anyone at any time. */
  datatype System = System(devices: map<u32, Replica>, network: set<Write>)

  /** A transaction sets the payload of each record it changes, or deletes it. */
  datatype Step =
    | Commit(device: u32, changes: map<Record, Option<string>>, now: u64)
    | Receive(device: u32, batch: seq<Write>, now: u64)

  function Row(r: Replica, record: Record): Option<Write> {
    if record in r.rows then Some(r.rows[record]) else None
  }

  predicate Tombstoned(r: Replica, record: Record) {
    record in r.rows && r.rows[record].version.deleted
  }

  /**
   A delete is of a record that is held and live. Setting a payload has no such guard: it may
   be of a new record, of a live one, or bring back one that was deleted.
   */
  predicate Enabled(s: System, step: Step) {
    && step.device in s.devices
    && !Top(s.devices[step.device].clock)
    && step.now + MAX_DRIFT_MS < LAST_MS
    && match step
       case Commit(d, changes, _) => forall record :: record in changes && changes[record].None? ==>
           record in s.devices[d].rows && !Tombstoned(s.devices[d], record)
       case Receive(_, batch, _) => forall i :: 0 <= i < |batch| ==> batch[i] in s.network
  }

  /** What a transaction writes of one record, stamped with the next tick of the device's clock. */
  function OwnWrite(r: Replica, step: Step, record: Record): Write
    requires step.Commit? && record in step.changes
  {
    var stamp := Tick(r.clock, step.now);
    match step.changes[record]
    case Some(payload) => Write(record, Version(stamp, false), payload)
    case None => Write(record, Version(stamp, true), "")
  }

  function OwnWrites(r: Replica, step: Step): map<Record, Write>
    requires step.Commit?
  {
    map record | record in step.changes :: OwnWrite(r, step, record)
  }

  function WriteOwn(r: Replica, step: Step): Replica
    requires step.Commit?
  {
    var writes := OwnWrites(r, step);
    Replica(Tick(r.clock, step.now), r.rows + writes, r.seen + writes.Values)
  }

  function Take(r: Replica, w: Write): Replica {
    var row := ApplyOne(Row(r, w.record), w);
    r.(rows := if row.Some? then r.rows[w.record := row.value] else r.rows, seen := r.seen + {w})
  }

  function TakeAll(r: Replica, batch: seq<Write>): Replica {
    if batch == [] then r else Take(TakeAll(r, batch[..|batch| - 1]), batch[|batch| - 1])
  }

  function Newest(batch: seq<Write>): Hlc
    requires batch != []
  {
    var last := batch[|batch| - 1].version.updatedAt;
    if |batch| == 1 then last
    else
      var newest := Newest(batch[..|batch| - 1]);
      if Less(last, newest) then newest else last
  }

  /** Apply a batch, then let the clock catch up with the newest stamp in it. */
  function ReceiveBatch(r: Replica, batch: seq<Write>, now: u64): Replica {
    TakeAll(r, batch).(clock := if batch == [] then r.clock else Merge(r.clock, Newest(batch), now))
  }

  function Do(s: System, step: Step): System
    requires Enabled(s, step)
  {
    var r := s.devices[step.device];
    if step.Receive? then
      s.(devices := s.devices[step.device := ReceiveBatch(r, step.batch, step.now)])
    else
      System(s.devices[step.device := WriteOwn(r, step)], s.network + OwnWrites(r, step).Values)
  }

  predicate Possible(s: System, run: seq<Step>)
    decreases |run|
  {
    run == [] || (Enabled(s, run[0]) && Possible(Do(s, run[0]), run[1..]))
  }

  function After(s: System, run: seq<Step>): System
    requires Possible(s, run)
    decreases |run|
  {
    if run == [] then s else After(Do(s, run[0]), run[1..])
  }

  /** Any number of devices, each with its own id in its clock, none with any record. */
  predicate Init(s: System) {
    && s.network == {}
    && forall d :: d in s.devices ==>
         s.devices[d] == Replica(s.devices[d].clock, map[], {}) && s.devices[d].clock.device == d
  }

  // ------------------------------------------------------------------ stamps are unique

  predicate Issued(s: System, w: Write) {
    && w.version.updatedAt.device in s.devices
    && Time(w.version.updatedAt) <= Time(s.devices[w.version.updatedAt.device].clock)
  }

  predicate StampsAreUnique(network: set<Write>) {
    forall v, w :: v in network && w in network && v.record == w.record
                   && v.version.updatedAt == w.version.updatedAt ==>
                     v == w
  }

  /** Every stamp was issued by a clock that has moved on since; rows and logs come from the network. */
  predicate Inv(s: System) {
    && (forall w :: w in s.network ==> Issued(s, w))
    && StampsAreUnique(s.network)
    && forall d :: d in s.devices ==>
         && s.devices[d].clock.device == d
         && s.devices[d].seen <= s.network
         && RowsAreSeen(s.devices[d])
  }

  predicate RowsAreSeen(r: Replica) {
    forall record :: record in r.rows ==> r.rows[record] in r.seen && r.rows[record].record == record
  }

  lemma {:induction false} TakeAllSees(r: Replica, batch: seq<Write>)
    requires RowsAreSeen(r)
    ensures RowsAreSeen(TakeAll(r, batch)) && TakeAll(r, batch).clock == r.clock
    ensures forall w :: w in TakeAll(r, batch).seen <==> w in r.seen || w in batch
    ensures forall record :: Tombstoned(r, record) ==> Tombstoned(TakeAll(r, batch), record)
  {
    if batch != [] {
      var init := batch[..|batch| - 1];
      TakeAllSees(r, init);
      assert batch == init + [batch[|batch| - 1]];
    }
  }

  lemma {:induction false} NewestIsMember(batch: seq<Write>)
    requires batch != []
    ensures exists w :: w in batch && w.version.updatedAt == Newest(batch)
    ensures forall w :: w in batch ==> !Less(Newest(batch), w.version.updatedAt)
  {
    var init := batch[..|batch| - 1];
    var last := batch[|batch| - 1];
    assert batch == init + [last];
    if |batch| > 1 {
      NewestIsMember(init);
      LessIsTime(last.version.updatedAt, Newest(init));
    }
  }

  lemma ReceiveMovesClockOn(r: Replica, batch: seq<Write>, now: u64)
    requires !Top(r.clock) && now + MAX_DRIFT_MS < LAST_MS && RowsAreSeen(r)
    ensures Time(r.clock) <= Time(ReceiveBatch(r, batch, now).clock)
    ensures ReceiveBatch(r, batch, now).clock.device == r.clock.device
  {
    TakeAllSees(r, batch);
    if batch != [] {
      MergeIsMax(r.clock, Newest(batch), now);
    }
  }

  /** A device's own stamp is new: later than its clock, so later than all it issued before. */
  lemma OwnStampIsNew(s: System, step: Step)
    requires Inv(s) && Enabled(s, step) && step.Commit?
    ensures var stamp := Tick(s.devices[step.device].clock, step.now);
            && stamp.device == step.device
            && Time(stamp) > Time(s.devices[step.device].clock)
            && forall v :: v in s.network ==> v.version.updatedAt != stamp
  {
    TickIsMax(s.devices[step.device].clock, step.now);
  }

  /** What a transaction writes: one version of each record it changes, all with its one stamp. */
  lemma OwnWritesAre(r: Replica, step: Step, w: Write)
    requires step.Commit?
    ensures w in OwnWrites(r, step).Values <==> w.record in step.changes && w == OwnWrite(r, step, w.record)
    ensures w in OwnWrites(r, step).Values ==> w.version.updatedAt == Tick(r.clock, step.now)
  {
    var writes := OwnWrites(r, step);
    if w in writes.Values {
      var record :| record in writes && writes[record] == w;
    }
    if w.record in step.changes && w == OwnWrite(r, step, w.record) {
      assert writes[w.record] == w;
    }
  }

  lemma CommitKeepsStamps(s: System, step: Step)
    requires Inv(s) && Enabled(s, step) && step.Commit?
    ensures StampsAreUnique(Do(s, step).network)
    ensures forall w :: w in Do(s, step).network ==> Issued(Do(s, step), w)
  {
    var r := s.devices[step.device];
    var t := Do(s, step);
    OwnStampIsNew(s, step);
    forall w | w in t.network
      ensures Issued(t, w)
    {
      OwnWritesAre(r, step, w);
      assert w in s.network ==> Issued(s, w);
    }
    forall v, w | v in t.network && w in t.network && v.record == w.record
                  && v.version.updatedAt == w.version.updatedAt
      ensures v == w
    {
      OwnWritesAre(r, step, v);
      OwnWritesAre(r, step, w);
    }
  }

  lemma CommitKeepsRowsSeen(r: Replica, step: Step)
    requires RowsAreSeen(r) && step.Commit?
    ensures RowsAreSeen(WriteOwn(r, step))
  {
    var t := WriteOwn(r, step);
    forall record | record in t.rows
      ensures t.rows[record] in t.seen && t.rows[record].record == record
    {
      OwnWritesAre(r, step, t.rows[record]);
    }
  }

  lemma StepKeepsInv(s: System, step: Step)
    requires Inv(s) && Enabled(s, step)
    ensures Inv(Do(s, step))
  {
    var r := s.devices[step.device];
    if step.Receive? {
      TakeAllSees(r, step.batch);
      ReceiveMovesClockOn(r, step.batch, step.now);
      forall w | w in s.network
        ensures Issued(Do(s, step), w)
      {
        assert Issued(s, w);
      }
    } else {
      OwnStampIsNew(s, step);
      CommitKeepsStamps(s, step);
      CommitKeepsRowsSeen(r, step);
    }
  }

  lemma {:induction false} RunKeepsInv(s: System, run: seq<Step>)
    requires Inv(s) && Possible(s, run)
    ensures Inv(After(s, run)) && After(s, run).devices.Keys == s.devices.Keys
    decreases |run|
  {
    if run != [] {
      StepKeepsInv(s, run[0]);
      RunKeepsInv(Do(s, run[0]), run[1..]);
    }
  }

  /** In every run, whatever is delivered to whom, no two writes of one record carry the same stamp. */
  lemma {:induction false} StampsAreAlwaysUnique(s: System, run: seq<Step>)
    requires Init(s) && Possible(s, run)
    ensures StampsAreUnique(After(s, run).network)
  {
    RunKeepsInv(s, run);
  }

  // ------------------------------------------------------------------ tombstones

  /** The device sets a payload of the record itself. */
  predicate SetsLive(step: Step, d: u32, record: Record) {
    step.Commit? && step.device == d && record in step.changes && step.changes[record].Some?
  }

  /** The record is a tombstone at the device, at the start and after every step. */
  predicate TombstonedThroughout(s: System, run: seq<Step>, d: u32, record: Record)
    requires Possible(s, run)
    decreases |run|
  {
    && d in s.devices && Tombstoned(s.devices[d], record)
    && (run != [] ==> TombstonedThroughout(Do(s, run[0]), run[1..], d, record))
  }

  lemma StepOverTombstone(s: System, step: Step, d: u32, record: Record)
    requires Inv(s) && Enabled(s, step) && d in s.devices && Tombstoned(s.devices[d], record)
    ensures d in Do(s, step).devices
    ensures Tombstoned(Do(s, step).devices[d], record) <==> !SetsLive(step, d, record)
  {
    if step.Receive? {
      TakeAllSees(s.devices[step.device], step.batch);
    }
  }

  /**
   A record that is tombstoned at a device stays so, in every run, whatever arrives, exactly
   as long as the device does not set it again itself.
   */
  lemma {:induction false} TombstonesAreForGood(s: System, run: seq<Step>, d: u32, record: Record)
    requires Inv(s) && Possible(s, run)
    requires d in s.devices && Tombstoned(s.devices[d], record)
    ensures TombstonedThroughout(s, run, d, record) <==>
            forall i :: 0 <= i < |run| ==> !SetsLive(run[i], d, record)
    decreases |run|
  {
    if run != [] {
      StepKeepsInv(s, run[0]);
      StepOverTombstone(s, run[0], d, record);
      if !SetsLive(run[0], d, record) {
        TombstonesAreForGood(Do(s, run[0]), run[1..], d, record);
        assert forall i :: 0 < i < |run| ==> run[i] == run[1..][i - 1];
      }
    }
  }

  // ------------------------------------------------------------------ convergence

  /** The row is the maximum of everything the device has seen of the record. */
  predicate Settled(r: Replica, record: Record) {
    forall w :: w in r.seen && w.record == record ==> record in r.rows && !Below(r.rows[record].version, w.version)
  }

  predicate AllSettled(r: Replica) {
    forall w :: w in r.seen ==> w.record in r.rows && !Below(r.rows[w.record].version, w.version)
  }

  /**
   A delivery keeps a settled device settled, for every write, exactly when it is not a
   tombstone for a record the device does not hold.
   */
  lemma TakeSettles(r: Replica, w: Write)
    requires AllSettled(r)
    ensures AllSettled(Take(r, w)) <==> !Skips(Row(r, w.record), w)
  {
    var t := Take(r, w);
    assert w in t.seen;
    if w.record in r.rows {
      var held := r.rows[w.record];
      ResolveIsMaximum(held.version, w.version);
      forall v | v in t.seen
        ensures v.record in t.rows && !Below(t.rows[v.record].version, v.version)
      {
        if v != w && v.record == w.record {
          NotBelowIsTransitive(w.version, held.version, v.version);
        }
      }
    }
  }

  /** A new payload is outranked when the version it replaces carries a stamp its own does not pass. */
  predicate Outranked(r: Replica, step: Step) {
    && step.Commit?
    && exists record :: record in step.changes && step.changes[record].Some? && record in r.rows
                        && !Less(r.rows[record].version.updatedAt, Tick(r.clock, step.now))
  }

  /** A new payload brings a deleted record back. */
  predicate Revives(r: Replica, step: Step) {
    && step.Commit?
    && exists record :: record in step.changes && step.changes[record].Some? && Tombstoned(r, record)
  }

  lemma OwnWriteOutranks(r: Replica, step: Step, record: Record)
    requires step.Commit? && record in step.changes && record in r.rows
    requires step.changes[record].None? ==> !Tombstoned(r, record)
    ensures Below(OwnWrite(r, step, record).version, r.rows[record].version) ==>
              Outranked(r, step) || Revives(r, step)
    ensures step.changes[record].Some? && Tombstoned(r, record) ==>
              Below(OwnWrite(r, step, record).version, r.rows[record].version)
    ensures step.changes[record].Some? && !Less(r.rows[record].version.updatedAt, Tick(r.clock, step.now))
            && r.rows[record].version.updatedAt != Tick(r.clock, step.now) ==>
              Below(OwnWrite(r, step, record).version, r.rows[record].version)
  {
    LessIsTime(r.rows[record].version.updatedAt, Tick(r.clock, step.now));
  }

  lemma OwnWriteUnsettles(s: System, step: Step, record: Record)
    requires Inv(s) && Enabled(s, step) && step.Commit?
    requires record in step.changes && step.changes[record].Some? && record in s.devices[step.device].rows
    requires Tombstoned(s.devices[step.device], record)
             || !Less(s.devices[step.device].rows[record].version.updatedAt,
                      Tick(s.devices[step.device].clock, step.now))
    ensures !AllSettled(WriteOwn(s.devices[step.device], step))
  {
    OwnStampIsNew(s, step);
    var r := s.devices[step.device];
    OwnWriteOutranks(r, step, record);
    assert r.rows[record] in WriteOwn(r, step).seen;
  }

  /**
   A device's own transaction keeps it settled exactly when nothing it sets is outranked and
   nothing it sets was deleted. A clock is only pulled along up to the drift limit, so a
   version from a clock beyond it does outrank; and a tombstone outranks whatever comes later.
   */
  lemma OwnWriteSettles(s: System, step: Step)
    requires Inv(s) && Enabled(s, step) && step.Commit?
    requires AllSettled(s.devices[step.device])
    ensures AllSettled(Do(s, step).devices[step.device]) <==>
            !Outranked(s.devices[step.device], step) && !Revives(s.devices[step.device], step)
  {
    var r := s.devices[step.device];
    if Outranked(r, step) {
      var record :| record in step.changes && step.changes[record].Some? && record in r.rows
                    && !Less(r.rows[record].version.updatedAt, Tick(r.clock, step.now));
      OwnWriteUnsettles(s, step, record);
    } else if Revives(r, step) {
      var record :| record in step.changes && step.changes[record].Some? && Tombstoned(r, record);
      OwnWriteUnsettles(s, step, record);
    } else {
      var t := WriteOwn(r, step);
      forall v | v in t.seen
        ensures v.record in t.rows && !Below(t.rows[v.record].version, v.version)
      {
        SettledAfterOwn(r, step, v);
      }
    }
  }

  lemma SettledAfterOwn(r: Replica, step: Step, v: Write)
    requires step.Commit? && AllSettled(r) && !Outranked(r, step) && !Revives(r, step)
    requires forall record :: record in step.changes && step.changes[record].None? ==> !Tombstoned(r, record)
    requires v in WriteOwn(r, step).seen
    ensures v.record in WriteOwn(r, step).rows && !Below(WriteOwn(r, step).rows[v.record].version, v.version)
  {
    OwnWritesAre(r, step, v);
    if v.record in step.changes {
      var w := OwnWrite(r, step, v.record);
      if v in r.seen {
        OwnWriteOutranks(r, step, v.record);
        NotBelowTransfers(w.version, r.rows[v.record].version, v.version);
      } else {
        ResolveIsMaximum(w.version, v.version);
      }
    }
  }

  predicate NothingSkipped(r: Replica, batch: seq<Write>) {
    batch == [] ||
    (NothingSkipped(r, batch[..|batch| - 1]) &&
     !Skips(Row(TakeAll(r, batch[..|batch| - 1]), batch[|batch| - 1].record), batch[|batch| - 1]))
  }

  /** None of the three lossy branches is taken. */
  predicate Lossless(r: Replica, step: Step) {
    !Outranked(r, step) && !Revives(r, step) && (step.Receive? ==> NothingSkipped(r, step.batch))
  }

  predicate LosslessRun(s: System, run: seq<Step>)
    requires Possible(s, run)
    decreases |run|
  {
    run == [] || (Lossless(s.devices[run[0].device], run[0]) && LosslessRun(Do(s, run[0]), run[1..]))
  }

  lemma {:induction false} TakeAllSettles(r: Replica, batch: seq<Write>)
    requires AllSettled(r) && NothingSkipped(r, batch)
    ensures AllSettled(TakeAll(r, batch))
  {
    if batch != [] {
      TakeAllSettles(r, batch[..|batch| - 1]);
      TakeSettles(TakeAll(r, batch[..|batch| - 1]), batch[|batch| - 1]);
    }
  }

  lemma {:induction false} RunSettles(s: System, run: seq<Step>)
    requires Inv(s) && Possible(s, run) && LosslessRun(s, run)
    requires forall d :: d in s.devices ==> AllSettled(s.devices[d])
    ensures forall d :: d in After(s, run).devices ==> AllSettled(After(s, run).devices[d])
    decreases |run|
  {
    if run != [] {
      StepKeepsInv(s, run[0]);
      if run[0].Receive? {
        TakeAllSettles(s.devices[run[0].device], run[0].batch);
      } else {
        OwnWriteSettles(s, run[0]);
      }
      RunSettles(Do(s, run[0]), run[1..]);
    }
  }

  /**
   Replicas converge: in every lossless run, two devices that have seen the same writes of a
   record hold the same version and payload of it, the maximum — whatever the order, the
   batches and the repetitions those writes came in.
   */
  lemma {:induction false} ReplicasConverge(s: System, run: seq<Step>, d: u32, e: u32, record: Record)
    requires Init(s) && Possible(s, run) && LosslessRun(s, run)
    requires d in s.devices && e in s.devices
    requires d in After(s, run).devices && e in After(s, run).devices
    requires forall w: Write :: w.record == record ==>
               (w in After(s, run).devices[d].seen <==> w in After(s, run).devices[e].seen)
    ensures Row(After(s, run).devices[d], record) == Row(After(s, run).devices[e], record)
    ensures Settled(After(s, run).devices[d], record)
  {
    RunKeepsInv(s, run);
    RunSettles(s, run);
    var t := After(s, run);
    var rd, re := t.devices[d], t.devices[e];
    assert record in re.rows ==> re.rows[record] in rd.seen;
    if record in rd.rows {
      var v := rd.rows[record];
      assert v in re.seen;
      var w := re.rows[record];
      ResolveIsMaximum(v.version, w.version);
      assert v in t.network && w in t.network;
    }
  }

  // ------------------------------------------------------------------ when edits are safe

  /** Everything a device holds carries a stamp its clock has passed. */
  predicate RowsArePast(r: Replica) {
    forall record :: record in r.rows ==> Time(r.rows[record].version.updatedAt) <= Time(r.clock)
  }

  predicate WithinDrift(step: Step) {
    step.Receive? ==>
      forall i :: 0 <= i < |step.batch| ==> step.batch[i].version.updatedAt.wall <= step.now + MAX_DRIFT_MS
  }

  /** As long as every batch arrives within the drift, nothing set is ever outranked. */
  lemma EditsWithinDriftAreNotOutranked(s: System, step: Step)
    requires Inv(s) && Enabled(s, step) && RowsArePast(s.devices[step.device])
    ensures !Outranked(s.devices[step.device], step)
    ensures WithinDrift(step) ==> RowsArePast(Do(s, step).devices[step.device])
  {
    var r := s.devices[step.device];
    if step.Receive? {
      if WithinDrift(step) {
        BatchWithinDriftIsPast(r, step.batch, step.now);
      }
    } else {
      OwnStampIsNew(s, step);
      forall record | record in r.rows
        ensures Less(r.rows[record].version.updatedAt, Tick(r.clock, step.now))
      {
        LessIsTime(r.rows[record].version.updatedAt, Tick(r.clock, step.now));
      }
    }
  }

  /** Every batch arrives within the drift, no tombstone before its record, and nothing is brought back. */
  predicate CleanRun(s: System, run: seq<Step>)
    requires Possible(s, run)
    decreases |run|
  {
    run == []
    || (WithinDrift(run[0])
        && (run[0].Receive? ==> NothingSkipped(s.devices[run[0].device], run[0].batch))
        && !Revives(s.devices[run[0].device], run[0])
        && CleanRun(Do(s, run[0]), run[1..]))
  }

  /** So with sane clocks, tombstones after what they delete and before nothing, replicas converge. */
  lemma {:induction false} CleanRunsAreLossless(s: System, run: seq<Step>)
    requires Inv(s) && Possible(s, run) && CleanRun(s, run)
    requires forall d :: d in s.devices ==> RowsArePast(s.devices[d])
    ensures LosslessRun(s, run)
    decreases |run|
  {
    if run != [] {
      StepKeepsInv(s, run[0]);
      EditsWithinDriftAreNotOutranked(s, run[0]);
      CleanRunsAreLossless(Do(s, run[0]), run[1..]);
    }
  }

  lemma BatchWithinDriftIsPast(r: Replica, batch: seq<Write>, now: u64)
    requires RowsArePast(r) && RowsAreSeen(r) && !Top(r.clock) && now + MAX_DRIFT_MS < LAST_MS
    requires forall i :: 0 <= i < |batch| ==> batch[i].version.updatedAt.wall <= now + MAX_DRIFT_MS
    ensures RowsArePast(ReceiveBatch(r, batch, now))
  {
    RowsComeFromSomewhere(r, batch);
    ReceiveMovesClockOn(r, batch, now);
    if batch != [] {
      NewestIsMember(batch);
      var newest := Newest(batch);
      var at :| 0 <= at < |batch| && batch[at].version.updatedAt == newest;
      MergePassesRemote(r.clock, newest, now);
      forall w | w in batch
        ensures Time(w.version.updatedAt) <= Time(ReceiveBatch(r, batch, now).clock)
      {
        LessIsTime(newest, w.version.updatedAt);
      }
    }
  }

  lemma {:induction false} RowsComeFromSomewhere(r: Replica, batch: seq<Write>)
    ensures forall record :: record in TakeAll(r, batch).rows ==>
              TakeAll(r, batch).rows[record] in batch
                || (record in r.rows && TakeAll(r, batch).rows[record] == r.rows[record])
  {
    if batch != [] {
      RowsComeFromSomewhere(r, batch[..|batch| - 1]);
      assert batch == batch[..|batch| - 1] + [batch[|batch| - 1]];
    }
  }

  // ------------------------------------------------------------------ two runs that diverge

  /** Four steps that lead from state to state are a run. */
  lemma RunOfFour(s: System, a: Step, s1: System, b: Step, s2: System, c: Step, s3: System, d: Step, s4: System)
    requires Enabled(s, a) && Do(s, a) == s1 && Enabled(s1, b) && Do(s1, b) == s2
    requires Enabled(s2, c) && Do(s2, c) == s3 && Enabled(s3, d) && Do(s3, d) == s4
    ensures Possible(s, [a, b, c, d]) && After(s, [a, b, c, d]) == s4
  {
    Before(s3, d, s4, []);
    Before(s2, c, s3, [d]);
    Before(s1, b, s2, [c, d]);
    Before(s, a, s1, [b, c, d]);
    assert [d] + [] == [d] && [c] + [d] == [c, d] && [b] + [c, d] == [b, c, d];
    assert [a] + [b, c, d] == [a, b, c, d];
  }

  lemma Before(s: System, step: Step, t: System, rest: seq<Step>)
    requires Enabled(s, step) && Do(s, step) == t && Possible(t, rest)
    ensures Possible(s, [step] + rest) && After(s, [step] + rest) == After(t, rest)
  {
    assert ([step] + rest)[1..] == rest;
  }

  /** A transaction that changes one record; `t` and `all` are what it leaves. */
  lemma SetOne(r: Replica, network: set<Write>, step: Step, w: Write, t: Replica, all: set<Write>)
    requires step.Commit? && step.changes.Keys == {w.record} && w == OwnWrite(r, step, w.record)
    requires t.clock == w.version.updatedAt && t.rows == r.rows[w.record := w] && t.seen == r.seen + {w}
    requires all == network + {w}
    ensures WriteOwn(r, step) == t && network + OwnWrites(r, step).Values == all
  {
    var writes := OwnWrites(r, step);
    assert writes == map[w.record := w];
    assert writes[w.record] == w;
    assert writes.Values == {w};
    assert r.rows + writes == r.rows[w.record := w];
  }

  lemma TakeOneOf(r: Replica, w: Write)
    ensures TakeAll(r, [w]) == Take(r, w)
  {
    assert [w][..0] == [];
    assert TakeAll(r, []) == r;
  }

  const NOW: u64 := 1_700_000_000_000
  const FAR: u64 := 4_000_000_000_000

  function Fresh(device: u32): Replica {
    Replica(Hlc(0, 0, device), map[], {})
  }

  function TwoDevices(one: Replica, two: Replica, network: set<Write>): System {
    System(map[1 := one, 2 := two], network)
  }

  lemma CommitAtOne(one: Replica, two: Replica, network: set<Write>, change: Option<string>, w: Write,
                    t: Replica, all: set<Write>)
    requires !Top(one.clock) && (change.None? ==> 7 in one.rows && !one.rows[7].version.deleted)
    requires w == OwnWrite(one, Commit(1, map[7 := change], NOW), 7)
    requires t.clock == w.version.updatedAt && t.rows == one.rows[7 := w] && t.seen == one.seen + {w}
    requires all == network + {w}
    ensures Enabled(TwoDevices(one, two, network), Commit(1, map[7 := change], NOW))
    ensures Do(TwoDevices(one, two, network), Commit(1, map[7 := change], NOW)) == TwoDevices(t, two, all)
  {
    SetOne(one, network, Commit(1, map[7 := change], NOW), w, t, all);
    assert TwoDevices(one, two, network).devices[1 := t] == map[1 := t, 2 := two];
  }

  lemma CommitAtTwo(one: Replica, two: Replica, network: set<Write>, payload: string, w: Write,
                    t: Replica, all: set<Write>)
    requires !Top(two.clock) && w == OwnWrite(two, Commit(2, map[7 := Some(payload)], FAR), 7)
    requires t.clock == w.version.updatedAt && t.rows == two.rows[7 := w] && t.seen == two.seen + {w}
    requires all == network + {w}
    ensures Enabled(TwoDevices(one, two, network), Commit(2, map[7 := Some(payload)], FAR))
    ensures Do(TwoDevices(one, two, network), Commit(2, map[7 := Some(payload)], FAR)) == TwoDevices(one, t, all)
  {
    SetOne(two, network, Commit(2, map[7 := Some(payload)], FAR), w, t, all);
    assert TwoDevices(one, two, network).devices[2 := t] == map[1 := one, 2 := t];
  }

  lemma ReceiveAtOne(one: Replica, two: Replica, network: set<Write>, w: Write, t: Replica)
    requires !Top(one.clock) && w in network
    requires t.clock == Merge(one.clock, w.version.updatedAt, NOW)
    requires t.rows == Take(one, w).rows && t.seen == one.seen + {w}
    ensures Enabled(TwoDevices(one, two, network), Receive(1, [w], NOW))
    ensures Do(TwoDevices(one, two, network), Receive(1, [w], NOW)) == TwoDevices(t, two, network)
  {
    TakeOneOf(one, w);
    assert ReceiveBatch(one, [w], NOW) == t;
    assert TwoDevices(one, two, network).devices[1 := t] == map[1 := t, 2 := two];
  }

  lemma ReceiveAtTwo(one: Replica, two: Replica, network: set<Write>, batch: seq<Write>, t: Replica)
    requires !Top(two.clock) && (forall w :: w in batch ==> w in network) && t == ReceiveBatch(two, batch, NOW)
    ensures Enabled(TwoDevices(one, two, network), Receive(2, batch, NOW))
    ensures Do(TwoDevices(one, two, network), Receive(2, batch, NOW)) == TwoDevices(one, t, network)
  {
    assert TwoDevices(one, two, network).devices[2 := t] == map[1 := one, 2 := t];
  }

  const THEIRS := Write(7, Version(Hlc(FAR, 0, 2), false), "theirs")
  const OURS := Write(7, Version(Hlc(NOW + MAX_DRIFT_MS, 2, 1), false), "ours")

  const AHEAD := Replica(Hlc(FAR, 0, 2), map[7 := THEIRS], {THEIRS})
  const PULLED := Replica(Hlc(NOW + MAX_DRIFT_MS, 1, 1), map[7 := THEIRS], {THEIRS})
  const EDITED := Replica(Hlc(NOW + MAX_DRIFT_MS, 2, 1), map[7 := OURS], {THEIRS, OURS})
  const UNMOVED := ReceiveBatch(AHEAD, [OURS], NOW)

  lemma FarClockWrites()
    ensures Enabled(TwoDevices(Fresh(1), Fresh(2), {}), Commit(2, map[7 := Some("theirs")], FAR))
    ensures Do(TwoDevices(Fresh(1), Fresh(2), {}), Commit(2, map[7 := Some("theirs")], FAR))
            == TwoDevices(Fresh(1), AHEAD, {THEIRS})
  {
    CommitAtTwo(Fresh(1), Fresh(2), {}, "theirs", THEIRS, AHEAD, {THEIRS});
  }

  lemma NearClockIsPulled()
    ensures Enabled(TwoDevices(Fresh(1), AHEAD, {THEIRS}), Receive(1, [THEIRS], NOW))
    ensures Do(TwoDevices(Fresh(1), AHEAD, {THEIRS}), Receive(1, [THEIRS], NOW))
            == TwoDevices(PULLED, AHEAD, {THEIRS})
  {
    assert Take(Fresh(1), THEIRS).rows == map[7 := THEIRS];
    ReceiveAtOne(Fresh(1), AHEAD, {THEIRS}, THEIRS, PULLED);
  }

  lemma NearClockEdits()
    ensures Enabled(TwoDevices(PULLED, AHEAD, {THEIRS}), Commit(1, map[7 := Some("ours")], NOW))
    ensures Do(TwoDevices(PULLED, AHEAD, {THEIRS}), Commit(1, map[7 := Some("ours")], NOW))
            == TwoDevices(EDITED, AHEAD, {THEIRS, OURS})
  {
    CommitAtOne(PULLED, AHEAD, {THEIRS}, Some("ours"), OURS, EDITED, {THEIRS, OURS});
  }

  lemma FarClockKeepsItsOwn()
    ensures Enabled(TwoDevices(EDITED, AHEAD, {THEIRS, OURS}), Receive(2, [OURS], NOW))
    ensures Do(TwoDevices(EDITED, AHEAD, {THEIRS, OURS}), Receive(2, [OURS], NOW))
            == TwoDevices(EDITED, UNMOVED, {THEIRS, OURS})
    ensures UNMOVED.rows == map[7 := THEIRS] && UNMOVED.seen == {THEIRS, OURS}
  {
    ReceiveAtTwo(EDITED, AHEAD, {THEIRS, OURS}, [OURS], UNMOVED);
    TakeOneOf(AHEAD, OURS);
  }

  /**
   Beyond the drift an edit can be lost: device 2's clock runs decades ahead, device 1 receives
   its version, edits it, and device 2 receives that edit. Both have seen both versions, and
   each keeps its own.
   */
  lemma FarClocksDiverge() returns (s: System, run: seq<Step>)
    ensures Init(s) && Possible(s, run)
    ensures var t := After(s, run);
            && t.devices.Keys == {1, 2}
            && t.devices[1].seen == t.devices[2].seen
            && Row(t.devices[1], 7).Some? && Row(t.devices[2], 7).Some?
            && Row(t.devices[1], 7) != Row(t.devices[2], 7)
  {
    s := TwoDevices(Fresh(1), Fresh(2), {});
    FarClockWrites();
    NearClockIsPulled();
    NearClockEdits();
    FarClockKeepsItsOwn();
    run := [Commit(2, map[7 := Some("theirs")], FAR), Receive(1, [THEIRS], NOW),
            Commit(1, map[7 := Some("ours")], NOW), Receive(2, [OURS], NOW)];
    RunOfFour(s, run[0], TwoDevices(Fresh(1), AHEAD, {THEIRS}), run[1], TwoDevices(PULLED, AHEAD, {THEIRS}),
              run[2], TwoDevices(EDITED, AHEAD, {THEIRS, OURS}), run[3],
              TwoDevices(EDITED, UNMOVED, {THEIRS, OURS}));
  }

  /** What a device holds that is brought a version, its tombstone and a version set after that. */
  lemma TombstoneWins(r: Replica, live: Write, gone: Write, again: Write)
    requires r.rows == map[] && live.record == gone.record == again.record
    requires !live.version.deleted && gone.version.deleted && !again.version.deleted
    ensures TakeAll(r, [live, gone, again])
         == r.(rows := map[live.record := gone], seen := r.seen + {live, gone, again})
  {
    assert [live, gone, again][..2] == [live, gone] && [live, gone][..1] == [live];
    TakeOneOf(r, live);
    assert Take(r, live).rows == map[live.record := live];
    var two := Take(Take(r, live), gone);
    assert two.rows == map[live.record := gone];
    assert TakeAll(r, [live, gone]) == two;
    assert Take(two, again).seen == r.seen + {live, gone, again};
  }

  const KEYA := Write(7, Version(Hlc(NOW, 0, 1), false), "key A")
  const GONE := Write(7, Version(Hlc(NOW, 1, 1), true), "")
  const KEYB := Write(7, Version(Hlc(NOW, 2, 1), false), "key B")

  const TRUSTING := Replica(Hlc(NOW, 0, 1), map[7 := KEYA], {KEYA})
  const FORGOTTEN := Replica(Hlc(NOW, 1, 1), map[7 := GONE], {KEYA, GONE})
  const TRUSTING_AGAIN := Replica(Hlc(NOW, 2, 1), map[7 := KEYB], {KEYA, GONE, KEYB})
  const TOLD := ReceiveBatch(Fresh(2), [KEYA, GONE, KEYB], NOW)

  lemma KeyIsTrusted()
    ensures Enabled(TwoDevices(Fresh(1), Fresh(2), {}), Commit(1, map[7 := Some("key A")], NOW))
    ensures Do(TwoDevices(Fresh(1), Fresh(2), {}), Commit(1, map[7 := Some("key A")], NOW))
            == TwoDevices(TRUSTING, Fresh(2), {KEYA})
  {
    CommitAtOne(Fresh(1), Fresh(2), {}, Some("key A"), KEYA, TRUSTING, {KEYA});
  }

  lemma KeyIsForgotten()
    ensures Enabled(TwoDevices(TRUSTING, Fresh(2), {KEYA}), Commit(1, map[7 := None], NOW))
    ensures Do(TwoDevices(TRUSTING, Fresh(2), {KEYA}), Commit(1, map[7 := None], NOW))
            == TwoDevices(FORGOTTEN, Fresh(2), {KEYA, GONE})
  {
    CommitAtOne(TRUSTING, Fresh(2), {KEYA}, None, GONE, FORGOTTEN, {KEYA, GONE});
  }

  lemma KeyIsTrustedAgain()
    ensures Enabled(TwoDevices(FORGOTTEN, Fresh(2), {KEYA, GONE}), Commit(1, map[7 := Some("key B")], NOW))
    ensures Do(TwoDevices(FORGOTTEN, Fresh(2), {KEYA, GONE}), Commit(1, map[7 := Some("key B")], NOW))
            == TwoDevices(TRUSTING_AGAIN, Fresh(2), {KEYA, GONE, KEYB})
  {
    CommitAtOne(FORGOTTEN, Fresh(2), {KEYA, GONE}, Some("key B"), KEYB, TRUSTING_AGAIN, {KEYA, GONE, KEYB});
  }

  lemma OtherDeviceIsTold()
    ensures Enabled(TwoDevices(TRUSTING_AGAIN, Fresh(2), {KEYA, GONE, KEYB}), Receive(2, [KEYA, GONE, KEYB], NOW))
    ensures Do(TwoDevices(TRUSTING_AGAIN, Fresh(2), {KEYA, GONE, KEYB}), Receive(2, [KEYA, GONE, KEYB], NOW))
            == TwoDevices(TRUSTING_AGAIN, TOLD, {KEYA, GONE, KEYB})
    ensures TOLD.rows == map[7 := GONE] && TOLD.seen == {KEYA, GONE, KEYB}
  {
    ReceiveAtTwo(TRUSTING_AGAIN, Fresh(2), {KEYA, GONE, KEYB}, [KEYA, GONE, KEYB], TOLD);
    TombstoneWins(Fresh(2), KEYA, GONE, KEYB);
  }

  /**
   A record that is deleted and set again lives on at the device that did so and nowhere else:
   device 1 trusts a key, forgets it and trusts another, and device 2 receives all of that.
   Both have seen the same three versions; one holds the last, the other the tombstone.
   */
  lemma RevivedRecordsDiverge() returns (s: System, run: seq<Step>)
    ensures Init(s) && Possible(s, run)
    ensures var t := After(s, run);
            && t.devices.Keys == {1, 2}
            && t.devices[1].seen == t.devices[2].seen
            && 7 in t.devices[1].rows && !Tombstoned(t.devices[1], 7)
            && Tombstoned(t.devices[2], 7)
  {
    s := TwoDevices(Fresh(1), Fresh(2), {});
    KeyIsTrusted();
    KeyIsForgotten();
    KeyIsTrustedAgain();
    OtherDeviceIsTold();
    run := [Commit(1, map[7 := Some("key A")], NOW), Commit(1, map[7 := None], NOW),
            Commit(1, map[7 := Some("key B")], NOW), Receive(2, [KEYA, GONE, KEYB], NOW)];
    RunOfFour(s, run[0], TwoDevices(TRUSTING, Fresh(2), {KEYA}), run[1], TwoDevices(FORGOTTEN, Fresh(2), {KEYA, GONE}),
              run[2], TwoDevices(TRUSTING_AGAIN, Fresh(2), {KEYA, GONE, KEYB}), run[3],
              TwoDevices(TRUSTING_AGAIN, TOLD, {KEYA, GONE, KEYB}));
  }
}
