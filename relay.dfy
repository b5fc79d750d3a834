/** The shared pose relay (SharedPoseBuffer of pyvut/api.py): five slots, each
    a numeric row, a 64-byte identifier segment, a last-write wall-clock time
    and a sequence counter.

    The first half is an abstract model of the relay contents as a sequence
    of slot states with pure Write and Read; the lemmas state what the relay
    promises about them. The class at the end keeps the same contents in
    arrays, as the source does, and its methods are proved against Write and
    Read. */
module Relay {
  import opened Pose
  import opened SlotCodec

  const PoseSlots: nat := 5

  /** Sequence counters are C unsigned longs (64 bits wide on LP64 platforms);
      an increment past the largest value wraps to zero. */
  const ULongModulus: nat := 0x1_0000_0000_0000_0000

  predicate InRange(trackerIndex: int)
  {
    0 <= trackerIndex < PoseSlots
  }

  /** Everything the relay keeps for one slot. */
  datatype SlotState = SlotState(row: Row, mac: seq<byte>, writeTime: real, sequence: nat)

  /** The increment of an unsigned long counter. */
  function NextSequence(s: nat): (r: nat)
    requires s < ULongModulus
    ensures r < ULongModulus
    ensures s + 1 < ULongModulus ==> r == s + 1
    ensures s + 1 == ULongModulus ==> r == 0
  {
    (s + 1) % ULongModulus
  }

  /** What holds of every slot at all times: the valid flag is 0.0 or 1.0, the
      identifier segment has its full width and ends in a NUL, and the counter
      fits an unsigned long. */
  predicate SlotWellFormed(slot: SlotState)
  {
    (slot.row.valid == 0.0 || slot.row.valid == 1.0) &&
    |slot.mac| == MacStrLen && slot.mac[MacStrLen - 1] == 0 &&
    slot.sequence < ULongModulus
  }

  predicate WellFormed(st: seq<SlotState>)
  {
    |st| == PoseSlots && forall s :: 0 <= s < |st| ==> SlotWellFormed(st[s])
  }

  /** The contents of a freshly created relay: every byte is zero. */
  function Initial(): (st: seq<SlotState>)
    ensures WellFormed(st)
    ensures forall s :: 0 <= s < |st| ==> st[s].row.valid == 0.0 && st[s].sequence == 0
  {
    seq(PoseSlots, _ => SlotState(EmptyRow, Zeros(MacStrLen), 0.0, 0))
  }

  /** write_pose: an index outside the five slots changes nothing; otherwise
      the slot gets the encoded row, the encoded identifier, the given
      wall-clock time and the next sequence number. */
  function Write(st: seq<SlotState>, trackerIndex: int, pose: TrackerPose, now: real): (st': seq<SlotState>)
    requires WellFormed(st)
    ensures WellFormed(st')
  {
    if !InRange(trackerIndex) then st
    else st[trackerIndex := SlotState(EncodeRow(pose), EncodeMac(pose.mac), now,
                                      NextSequence(st[trackerIndex].sequence))]
  }

  /** read_pose: no data for an index outside the five slots, otherwise the
      decoded slot. */
  function Read(st: seq<SlotState>, trackerIndex: int): (r: Option<Snapshot>)
    requires |st| == PoseSlots
    ensures r.Some? <==> InRange(trackerIndex) && st[trackerIndex].row.valid >= 0.5
    ensures r.Some? ==>
      r.value.writeTime == st[trackerIndex].writeTime &&
      r.value.sequence == st[trackerIndex].sequence &&
      r.value.mac == BeforeNul(st[trackerIndex].mac)
  {
    if !InRange(trackerIndex) then None
    else
      var slot := st[trackerIndex];
      DecodeSlot(slot.row, slot.mac, slot.writeTime, slot.sequence)
  }

  /** One call of write_pose, for reasoning about histories of writes. */
  datatype WriteOp = WriteOp(trackerIndex: int, pose: TrackerPose, now: real)

  function ApplyWrites(st: seq<SlotState>, ops: seq<WriteOp>): (st': seq<SlotState>)
    requires WellFormed(st)
    ensures WellFormed(st')
    decreases |ops|
  {
    if ops == [] then st
    else ApplyWrites(Write(st, ops[0].trackerIndex, ops[0].pose, ops[0].now), ops[1..])
  }

  /** How many writes of a history go to the given slot. */
  function WritesTo(ops: seq<WriteOp>, trackerIndex: int): nat
    decreases |ops|
  {
    if ops == [] then 0
    else (if ops[0].trackerIndex == trackerIndex then 1 else 0) + WritesTo(ops[1..], trackerIndex)
  }

  // ---------------------------------------------------------------------
  // Properties of the relay contents

  /** An index outside [0, 5) makes the write a no-op and the read empty. */
  lemma OutOfRangeIgnored(st: seq<SlotState>, trackerIndex: int, pose: TrackerPose, now: real)
    requires WellFormed(st) && !InRange(trackerIndex)
    ensures Write(st, trackerIndex, pose, now) == st
    ensures Read(st, trackerIndex) == None
  {
  }

  /** A write touches its own slot only. */
  lemma WriteFrame(st: seq<SlotState>, trackerIndex: int, pose: TrackerPose, now: real, other: int)
    requires WellFormed(st) && 0 <= other < PoseSlots && other != trackerIndex
    ensures Write(st, trackerIndex, pose, now)[other] == st[other]
    ensures Read(Write(st, trackerIndex, pose, now), other) == Read(st, other)
  {
  }

  /** After a write to slot i, slot i is valid, holds a NUL-terminated
      identifier segment, records the time of the write and has counted the
      write once. */
  lemma WriteUpdatesSlot(st: seq<SlotState>, trackerIndex: int, pose: TrackerPose, now: real)
    requires WellFormed(st) && InRange(trackerIndex)
    ensures var slot := Write(st, trackerIndex, pose, now)[trackerIndex];
      slot.row.valid == 1.0 && slot.mac == EncodeMac(pose.mac) &&
      slot.writeTime == now &&
      slot.sequence == (st[trackerIndex].sequence + 1) % ULongModulus
  {
  }

  /** A read right after a write returns what was written: position,
      rotation, timestamp, buttons and tracking status unchanged, the
      identifier as its first 63 bytes up to the first NUL, the time of the
      write, and the next sequence number. */
  lemma WriteThenRead(st: seq<SlotState>, trackerIndex: int, pose: TrackerPose, now: real)
    requires WellFormed(st) && InRange(trackerIndex)
    ensures Read(Write(st, trackerIndex, pose, now), trackerIndex)
         == Some(Snapshot(pose.position, pose.rotation, pose.timestampMs, pose.buttons,
                          pose.trackingStatus, BeforeNul(Truncate(pose.mac, MacStrLen - 1)),
                          now, NextSequence(st[trackerIndex].sequence)))
  {
    RowRoundTrip(pose, EncodeMac(pose.mac), now, NextSequence(st[trackerIndex].sequence));
    MacDecode(pose.mac);
  }

  /** For an identifier of at most 63 bytes without NUL the whole pose
      record that the relay carries round-trips exactly. */
  lemma WriteThenReadExact(st: seq<SlotState>, trackerIndex: int, pose: TrackerPose, now: real)
    requires WellFormed(st) && InRange(trackerIndex)
    requires |pose.mac| < MacStrLen && NulFree(pose.mac)
    ensures Read(Write(st, trackerIndex, pose, now), trackerIndex)
         == Some(Snapshot(pose.position, pose.rotation, pose.timestampMs, pose.buttons,
                          pose.trackingStatus, pose.mac,
                          now, NextSequence(st[trackerIndex].sequence)))
  {
    WriteThenRead(st, trackerIndex, pose, now);
    BeforeNulOfNulFree(pose.mac);
  }

  /** After any history of writes, a slot's counter has advanced by the
      number of writes to that slot, modulo the unsigned-long width. */
  lemma {:induction false} SequenceCountsWrites(st: seq<SlotState>, ops: seq<WriteOp>, trackerIndex: int)
    requires WellFormed(st) && InRange(trackerIndex)
    ensures ApplyWrites(st, ops)[trackerIndex].sequence
         == (st[trackerIndex].sequence + WritesTo(ops, trackerIndex)) % ULongModulus
    decreases |ops|
  {
    if ops != [] {
      var next := Write(st, ops[0].trackerIndex, ops[0].pose, ops[0].now);
      SequenceCountsWrites(next, ops[1..], trackerIndex);
      var s0 := st[trackerIndex].sequence;
      var rest := WritesTo(ops[1..], trackerIndex);
      if ops[0].trackerIndex == trackerIndex {
        assert next[trackerIndex].sequence == (s0 + 1) % ULongModulus;
        ModAddOne(s0, rest);
      } else {
        assert next[trackerIndex] == st[trackerIndex];
        assert s0 % ULongModulus == s0;
      }
    }
  }

  lemma ModAddOne(s: nat, n: nat)
    ensures ((s + 1) % ULongModulus + n) % ULongModulus == (s + (1 + n)) % ULongModulus
  {
    var m := ULongModulus;
    var q := (s + 1) / m;
    assert s + 1 == q * m + (s + 1) % m;
    assert (s + 1) % m + n == (s + 1 + n) - q * m;
    ModShift(s + 1 + n, q);
  }

  lemma ModShift(a: int, q: int)
    requires a - q * ULongModulus >= 0
    ensures (a - q * ULongModulus) % ULongModulus == a % ULongModulus
  {
  }

  /** A reader comparing counters detects new data: a history with no write
      to a slot leaves that slot exactly as it was, and one with at least one
      but fewer than 2^64 writes to it changes its counter. */
  lemma {:induction false} SequenceDetectsWrites(st: seq<SlotState>, ops: seq<WriteOp>, trackerIndex: int)
    requires WellFormed(st) && InRange(trackerIndex)
    ensures WritesTo(ops, trackerIndex) == 0 ==> ApplyWrites(st, ops)[trackerIndex] == st[trackerIndex]
    ensures 0 < WritesTo(ops, trackerIndex) < ULongModulus ==>
      ApplyWrites(st, ops)[trackerIndex].sequence != st[trackerIndex].sequence
    decreases |ops|
  {
    SequenceCountsWrites(st, ops, trackerIndex);
    if ops != [] && WritesTo(ops, trackerIndex) == 0 {
      var next := Write(st, ops[0].trackerIndex, ops[0].pose, ops[0].now);
      SequenceDetectsWrites(next, ops[1..], trackerIndex);
    }
  }

  /** The valid flag is sticky: after any history of writes a slot reads as
      empty exactly when it read as empty before and no write went to it. */
  lemma {:induction false} ValidityIsSticky(st: seq<SlotState>, ops: seq<WriteOp>, trackerIndex: int)
    requires WellFormed(st) && InRange(trackerIndex)
    ensures Read(ApplyWrites(st, ops), trackerIndex).None?
        <==> Read(st, trackerIndex).None? && WritesTo(ops, trackerIndex) == 0
    decreases |ops|
  {
    if ops != [] {
      var next := Write(st, ops[0].trackerIndex, ops[0].pose, ops[0].now);
      ValidityIsSticky(next, ops[1..], trackerIndex);
      if ops[0].trackerIndex == trackerIndex {
        WriteThenRead(st, trackerIndex, ops[0].pose, ops[0].now);
      }
    }
  }

  /** In a fresh relay a slot has data exactly when some write went to it. */
  lemma NeverWrittenReadsNone(ops: seq<WriteOp>, trackerIndex: int)
    ensures Read(ApplyWrites(Initial(), ops), trackerIndex).None?
        <==> !InRange(trackerIndex) || WritesTo(ops, trackerIndex) == 0
  {
    if InRange(trackerIndex) {
      ValidityIsSticky(Initial(), ops, trackerIndex);
    }
  }

  // ---------------------------------------------------------------------
  // The relay as the source keeps it: arrays updated in place

  class SharedPoseBuffer {
    /** The 5 x 11 float table. */
    var rows: array2<real>
    /** The flat 5 x 64 byte identifier buffer. */
    var macBuffer: array<byte>
    var writeTimestamps: array<real>
    var sequenceNumbers: array<nat>
    /** Whether this instance created the region (and so unlinks it on close). */
    var ownsShm: bool
    /** Whether the local mapping is still open. */
    var mapped: bool
    /** How often close has asked the OS to unlink the region. */
    var unlinkAttempts: nat

    ghost predicate Shaped()
      reads this
    {
      rows.Length0 == PoseSlots && rows.Length1 == PoseFields &&
      macBuffer.Length == PoseSlots * MacStrLen &&
      writeTimestamps.Length == PoseSlots && sequenceNumbers.Length == PoseSlots
    }

    function RowAt(s: nat): Row
      reads this, rows
      requires Shaped() && s < PoseSlots
    {
      Row(rows[s, 0], rows[s, 1], rows[s, 2],
          rows[s, 3], rows[s, 4], rows[s, 5], rows[s, 6],
          rows[s, 7], rows[s, 8], rows[s, 9], rows[s, 10])
    }

    ghost function SlotAt(s: nat): SlotState
      reads this, rows, macBuffer, writeTimestamps, sequenceNumbers
      requires Shaped() && s < PoseSlots
    {
      SlotState(RowAt(s), macBuffer[s * MacStrLen .. s * MacStrLen + MacStrLen],
                writeTimestamps[s], sequenceNumbers[s])
    }

    /** The relay contents the arrays hold. */
    ghost function Slots(): (st: seq<SlotState>)
      reads this, rows, macBuffer, writeTimestamps, sequenceNumbers
      requires Shaped()
      ensures |st| == PoseSlots
      ensures forall s :: 0 <= s < PoseSlots ==> st[s] == SlotAt(s)
    {
      seq(PoseSlots, s reads this, rows, macBuffer, writeTimestamps, sequenceNumbers
                       requires 0 <= s < PoseSlots && Shaped() => SlotAt(s))
    }

    ghost predicate Valid()
      reads this, rows, macBuffer, writeTimestamps, sequenceNumbers
    {
      Shaped() && WellFormed(Slots())
    }

    /** A new relay that this instance owns; the shared memory and the
        metadata arrays start out zeroed. */
    constructor ()
      ensures Valid() && Slots() == Initial()
      ensures ownsShm && mapped && unlinkAttempts == 0
      ensures fresh(rows) && fresh(macBuffer) && fresh(writeTimestamps) && fresh(sequenceNumbers)
    {
      rows := new real[PoseSlots, PoseFields]((_, _) => 0.0);
      macBuffer := new byte[PoseSlots * MacStrLen](_ => 0);
      writeTimestamps := new real[PoseSlots](_ => 0.0);
      sequenceNumbers := new nat[PoseSlots](_ => 0);
      ownsShm := true;
      mapped := true;
      unlinkAttempts := 0;
      new;
      forall s | 0 <= s < PoseSlots
        ensures SlotAt(s) == SlotState(EmptyRow, Zeros(MacStrLen), 0.0, 0)
      {
        assert RowAt(s) == EmptyRow;
        assert macBuffer[s * MacStrLen .. s * MacStrLen + MacStrLen] == Zeros(MacStrLen);
      }
      assert Slots() == Initial();
    }

    /** write_pose, with the wall clock passed in. */
    method WritePose(trackerIndex: int, pose: TrackerPose, now: real)
      requires Valid()
      modifies rows, macBuffer, writeTimestamps, sequenceNumbers
      ensures Valid()
      ensures Slots() == Write(old(Slots()), trackerIndex, pose, now)
    {
      if trackerIndex < 0 || trackerIndex >= PoseSlots {
        return;
      }
      ghost var before := Slots();
      var i := trackerIndex;
      assert before[i] == SlotAt(i);
      StoreRow(i, pose);
      StoreMac(i, pose.mac);
      writeTimestamps[i] := now;
      sequenceNumbers[i] := NextSequence(sequenceNumbers[i]);
      SlotsAfterWrite(before, i, pose, now);
    }

    /** The row assignments of write_pose: slot i gets the encoded pose. */
    method StoreRow(i: nat, pose: TrackerPose)
      requires Shaped() && i < PoseSlots
      modifies rows
      ensures RowAt(i) == EncodeRow(pose)
      ensures forall s, f :: 0 <= s < PoseSlots && s != i && 0 <= f < PoseFields ==>
        rows[s, f] == old(rows[s, f])
    {
      rows[i, 0] := pose.position.x;
      rows[i, 1] := pose.position.y;
      rows[i, 2] := pose.position.z;
      rows[i, 3] := pose.rotation.w;
      rows[i, 4] := pose.rotation.x;
      rows[i, 5] := pose.rotation.y;
      rows[i, 6] := pose.rotation.z;
      rows[i, 7] := pose.timestampMs as real;
      rows[i, 8] := pose.buttons as real;
      rows[i, 9] := pose.trackingStatus as real;
      rows[i, 10] := 1.0;
    }

    /** The identifier part of write_pose: zero slot i's segment, then copy
        in at most 63 bytes. */
    method StoreMac(i: nat, mac: seq<byte>)
      requires Shaped() && i < PoseSlots
      modifies macBuffer
      ensures macBuffer[i * MacStrLen .. i * MacStrLen + MacStrLen] == EncodeMac(mac)
      ensures forall k :: 0 <= k < macBuffer.Length && !(i * MacStrLen <= k < i * MacStrLen + MacStrLen) ==>
        macBuffer[k] == old(macBuffer[k])
    {
      var rawMac := Truncate(mac, MacStrLen - 1);
      var offset := i * MacStrLen;
      forall k | offset <= k < offset + MacStrLen {
        macBuffer[k] := 0;
      }
      forall k | offset <= k < offset + |rawMac| {
        macBuffer[k] := rawMac[k - offset];
      }
      assert forall k :: 0 <= k < MacStrLen ==>
        macBuffer[offset .. offset + MacStrLen][k] == EncodeMac(mac)[k];
    }

    /** The arrays after the in-place update of slot i hold Write's contents. */
    lemma SlotsAfterWrite(before: seq<SlotState>, i: nat, pose: TrackerPose, now: real)
      requires Shaped() && WellFormed(before) && i < PoseSlots
      requires RowAt(i) == EncodeRow(pose)
      requires macBuffer[i * MacStrLen .. i * MacStrLen + MacStrLen] == EncodeMac(pose.mac)
      requires writeTimestamps[i] == now && sequenceNumbers[i] == NextSequence(before[i].sequence)
      requires forall s :: 0 <= s < PoseSlots && s != i ==> SlotAt(s) == before[s]
      ensures Slots() == Write(before, i, pose, now)
    {
      assert forall s :: 0 <= s < PoseSlots ==> Slots()[s] == Write(before, i, pose, now)[s];
    }

    /** read_pose: copies the slot out, then decodes it. It changes nothing,
        so two reads with no write between them return the same result. */
    method ReadPose(trackerIndex: int) returns (r: Option<Snapshot>)
      requires Valid()
      ensures r == Read(Slots(), trackerIndex)
    {
      if trackerIndex < 0 || trackerIndex >= PoseSlots {
        return None;
      }
      var offset := trackerIndex * MacStrLen;
      var row := RowAt(trackerIndex);
      var writeTime := writeTimestamps[trackerIndex];
      var sequence := sequenceNumbers[trackerIndex];
      var rawMac := macBuffer[offset .. offset + MacStrLen];
      r := DecodeSlot(row, rawMac, writeTime, sequence);
    }

    /** close: drops the local mapping; the owner also unlinks the region.
        Unlinking a name that is already gone raises in the OS layer, so a
        second close by the owner reports an error. */
    method Close() returns (raised: bool)
      requires Valid()
      modifies this`mapped, this`unlinkAttempts
      ensures Valid() && !mapped
      ensures unlinkAttempts == old(unlinkAttempts) + if ownsShm then 1 else 0
      ensures raised <==> ownsShm && old(unlinkAttempts) > 0
    {
      mapped := false;
      raised := false;
      if ownsShm {
        raised := unlinkAttempts > 0;
        unlinkAttempts := unlinkAttempts + 1;
      }
    }
  }
  // ---------------------------------------------------------------------
  // A client of the class

  /** The identifier "AA:BB" as bytes. */
  const ExampleMac: seq<byte> := [65, 65, 58, 66, 66]

  /** Slot 3 of a new relay holds no data; a pose written to slot 2 reads back
      with its exact values and sequence 1, and a second write with a later
      device timestamp reads back with that timestamp and sequence 2. */
  method SlotTwoScenario(t1: real, t2: real)
    returns (unwritten: Option<Snapshot>, first: Option<Snapshot>, second: Option<Snapshot>)
    ensures unwritten == None
    ensures first == Some(Snapshot(Vec3(1.0, 2.0, 3.0), Quat(1.0, 0.0, 0.0, 0.0),
                                   1000, 0x10, 2, ExampleMac, t1, 1))
    ensures second == Some(Snapshot(Vec3(1.0, 2.0, 3.0), Quat(1.0, 0.0, 0.0, 0.0),
                                    1001, 0x10, 2, ExampleMac, t2, 2))
  {
    var buffer := new SharedPoseBuffer();
    unwritten := buffer.ReadPose(3);
    var pose := TrackerPose(2, ExampleMac, 0x10, 2, 1000, Vec3(1.0, 2.0, 3.0),
                            Quat(1.0, 0.0, 0.0, 0.0), ZeroVec, ZeroVec);
    ghost var st0 := buffer.Slots();
    buffer.WritePose(2, pose, t1);
    WriteThenReadExact(st0, 2, pose, t1);
    first := buffer.ReadPose(2);
    var later := pose.(timestampMs := 1001);
    ghost var st1 := buffer.Slots();
    buffer.WritePose(2, later, t2);
    WriteThenReadExact(st1, 2, later, t2);
    second := buffer.ReadPose(2);
  }
}
