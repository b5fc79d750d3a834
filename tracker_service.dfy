/** TrackerService of pyvut/api.py: the parent-process side of the isolated
    service. It owns a relay, reads poses from it, keeps two observability
    fields, and stops at most once. */
module Service {
  import opened Pose
  import opened SlotCodec
  import opened Relay

  /** The pose get_pose builds from a relay snapshot. Acceleration and
      angular velocity are not relayed and come back as zero vectors. */
  function PoseFromSnapshot(trackerIndex: int, snap: Snapshot): (p: TrackerPose)
    ensures p.trackerIndex == trackerIndex
    ensures p.acceleration == ZeroVec && p.angularVelocity == ZeroVec
    ensures p.mac == snap.mac && p.timestampMs == snap.timestampMs
    ensures p.buttons == snap.buttons && p.trackingStatus == snap.trackingStatus
    ensures p.position == snap.position && p.rotation == snap.rotation
  {
    TrackerPose(trackerIndex, snap.mac, snap.buttons, snap.trackingStatus, snap.timestampMs,
                snap.position, snap.rotation, ZeroVec, ZeroVec)
  }

  /** Age of a slot in milliseconds: wall clock now minus the write time. */
  function AgeMs(now: real, writeTime: real): (age: real)
    ensures writeTime <= now <==> 0.0 <= age
    ensures age / 1000.0 == now - writeTime
  {
    (now - writeTime) * 1000.0
  }

  /** What the child writes for a pose, the parent reads back as the same
      pose, except for the two vectors the relay does not carry (for an
      identifier of at most 63 bytes without NUL). */
  lemma RelayedPoseRoundTrip(st: seq<SlotState>, pose: TrackerPose, now: real)
    requires WellFormed(st) && InRange(pose.trackerIndex)
    requires |pose.mac| < MacStrLen && NulFree(pose.mac)
    ensures var data := Read(Write(st, pose.trackerIndex, pose, now), pose.trackerIndex);
      data.Some? &&
      PoseFromSnapshot(pose.trackerIndex, data.value)
        == pose.(acceleration := ZeroVec, angularVelocity := ZeroVec)
  {
    WriteThenReadExact(st, pose.trackerIndex, pose, now);
  }

  class TrackerService {
    var buffer: SharedPoseBuffer
    /** Whether the stop event shared with the child is set. */
    var stopEventSet: bool
    /** Whether _process refers to the child process. */
    var hasProcess: bool
    var running: bool
    var lastPoseAgeMs: Option<real>
    var lastPoseSequence: Option<nat>

    /** While running, the service's relay is mapped and not yet unlinked;
        once stopped, it has been unlinked exactly once. */
    ghost predicate Valid()
      reads this, buffer, buffer.rows, buffer.macBuffer, buffer.writeTimestamps, buffer.sequenceNumbers
    {
      buffer.Valid() && buffer.ownsShm &&
      (running ==> buffer.mapped && buffer.unlinkAttempts == 0 && hasProcess && !stopEventSet) &&
      (!running ==> !buffer.mapped && buffer.unlinkAttempts == 1 && !hasProcess && stopEventSet)
    }

    /** Creates and owns a fresh relay and starts the child process. */
    constructor ()
      ensures Valid() && running && fresh(buffer)
      ensures fresh(buffer.rows) && fresh(buffer.macBuffer)
      ensures fresh(buffer.writeTimestamps) && fresh(buffer.sequenceNumbers)
      ensures buffer.Slots() == Initial()
      ensures lastPoseAgeMs == None && lastPoseSequence == None
    {
      buffer := new SharedPoseBuffer();
      stopEventSet := false;
      hasProcess := true;
      lastPoseAgeMs := None;
      lastPoseSequence := None;
      running := true;
    }

    /** The child's pose callback: every pose goes into the relay at its own
        tracker index. */
    method RelayPose(pose: TrackerPose, now: real)
      requires Valid() && running
      modifies buffer.rows, buffer.macBuffer, buffer.writeTimestamps, buffer.sequenceNumbers
      ensures Valid()
      ensures buffer.Slots() == Write(old(buffer.Slots()), pose.trackerIndex, pose, now)
    {
      buffer.WritePose(pose.trackerIndex, pose, now);
    }

    /** get_pose: no pose and no change for a slot without data; otherwise
        the pose from the slot, with the slot's age and sequence recorded. */
    method GetPose(trackerIndex: int, now: real) returns (pose: Option<TrackerPose>)
      requires Valid()
      modifies this`lastPoseAgeMs, this`lastPoseSequence
      ensures Valid()
      ensures var data := Read(buffer.Slots(), trackerIndex);
        match data
        case None =>
          pose == None &&
          lastPoseAgeMs == old(lastPoseAgeMs) && lastPoseSequence == old(lastPoseSequence)
        case Some(snap) =>
          pose == Some(PoseFromSnapshot(trackerIndex, snap)) &&
          lastPoseAgeMs == Some(AgeMs(now, snap.writeTime)) &&
          lastPoseSequence == Some(snap.sequence)
    {
      var data := buffer.ReadPose(trackerIndex);
      if data.None? {
        return None;
      }
      lastPoseAgeMs := Some(AgeMs(now, data.value.writeTime));
      lastPoseSequence := Some(data.value.sequence);
      pose := Some(PoseFromSnapshot(trackerIndex, data.value));
    }

    /** stop: the first call signals the child, forgets it once it is joined
        (or the join times out), and closes the relay, which unlinks it; any
        later call returns at once. The relay is therefore unlinked exactly
        once and close never meets an already unlinked region. */
    method Stop()
      requires Valid()
      modifies this, buffer`mapped, buffer`unlinkAttempts
      ensures Valid() && !running && buffer == old(buffer)
      ensures buffer.unlinkAttempts == 1
      ensures !old(running) ==>
        stopEventSet == old(stopEventSet) && hasProcess == old(hasProcess) &&
        buffer.mapped == old(buffer.mapped) && buffer.unlinkAttempts == old(buffer.unlinkAttempts)
      ensures lastPoseAgeMs == old(lastPoseAgeMs) && lastPoseSequence == old(lastPoseSequence)
    {
      if !running {
        return;
      }
      stopEventSet := true;
      var raised := buffer.Close();
      assert !raised;
      running := false;
      hasProcess := false;
    }
  }

  /** A new service relays one pose from the child and the parent reads it
      back twice: both reads rebuild the pose (with zero acceleration and
      angular velocity) and record sequence 1, since one write happened. */
  method RelayThenGetTwice(pose: TrackerPose, t1: real, t2: real, t3: real)
    returns (first: Option<TrackerPose>, second: Option<TrackerPose>, sequence: Option<nat>)
    requires InRange(pose.trackerIndex)
    requires |pose.mac| < MacStrLen && NulFree(pose.mac)
    ensures first == second == Some(pose.(acceleration := ZeroVec, angularVelocity := ZeroVec))
    ensures sequence == Some(1)
  {
    var service := new TrackerService();
    service.RelayPose(pose, t1);
    RelayedPoseRoundTrip(Initial(), pose, t1);
    WriteUpdatesSlot(Initial(), pose.trackerIndex, pose, t1);
    first := service.GetPose(pose.trackerIndex, t2);
    second := service.GetPose(pose.trackerIndex, t3);
    sequence := service.lastPoseSequence;
  }

  /** Stopping twice releases the relay once and leaves the same state as
      stopping once. */
  method StopTwice() returns (unlinks: nat)
    ensures unlinks == 1
  {
    var service := new TrackerService();
    service.Stop();
    service.Stop();
    unlinks := service.buffer.unlinkAttempts;
  }
}
