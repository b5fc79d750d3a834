/** The pose record that the poll loop, the relay and the service pass around
    (the TrackerPose dataclass of pyvut/api.py), and the small wrappers the
    other modules share. */
module Pose {

  /** Python's Optional: None or a value. */
  datatype Option<+T> = None | Some(value: T)

  /** One byte of the UTF-8 encoded hardware identifier. */
  newtype byte = x: int | 0 <= x < 256

  /** A three-component vector (position, acceleration, angular velocity). */
  datatype Vec3 = Vec3(x: real, y: real, z: real)

  /** A rotation quaternion in (w, x, y, z) component order. */
  datatype Quat = Quat(w: real, x: real, y: real, z: real)

  const ZeroVec: Vec3 := Vec3(0.0, 0.0, 0.0)

  /** One 6DoF sample of one tracker. The identifier is kept as the bytes of
      its text; the float64 components are reals. */
  datatype TrackerPose = TrackerPose(
    trackerIndex: int,
    mac: seq<byte>,
    buttons: int,
    trackingStatus: int,
    timestampMs: int,
    position: Vec3,
    rotation: Quat,
    acceleration: Vec3,
    angularVelocity: Vec3)
}
