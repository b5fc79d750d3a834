/** How one relay slot is laid out: the eleven-field numeric row, the 64-byte
    NUL-padded identifier segment, and how read_pose decodes them again. */
module SlotCodec {
  import opened Pose

  /** Fields per row: px, py, pz, rw, rx, ry, rz, timestamp_ms, buttons,
      tracking_status, valid_flag. */
  const PoseFields: nat := 11

  /** Bytes per slot in the identifier buffer. */
  const MacStrLen: nat := 64

  /** One row of the pose table, field by field in table order. */
  datatype Row = Row(
    px: real, py: real, pz: real,
    rw: real, rx: real, ry: real, rz: real,
    timestampMs: real, buttons: real, trackingStatus: real,
    valid: real)

  /** A freshly created table holds zeros only. */
  const EmptyRow: Row := Row(0.0, 0.0, 0.0, 0.0, 0.0, 0.0, 0.0, 0.0, 0.0, 0.0, 0.0)

  /** The dictionary that read_pose returns for a slot that holds data. */
  datatype Snapshot = Snapshot(
    position: Vec3,
    rotation: Quat,
    timestampMs: int,
    buttons: int,
    trackingStatus: int,
    mac: seq<byte>,
    writeTime: real,
    sequence: nat)

  /** Python's int() applied to a float: truncation toward zero. */
  function TruncToInt(x: real): (r: int)
    ensures 0.0 <= x ==> 0 <= r && r as real <= x < r as real + 1.0
    ensures x < 0.0 ==> r <= 0 && r as real - 1.0 < x <= r as real
  {
    if 0.0 <= x then x.Floor else -((-x).Floor)
  }

  /** The row that write_pose stores for a pose; the integer fields go in
      as floats and the valid flag is set. */
  function EncodeRow(p: TrackerPose): (r: Row)
    ensures r.valid == 1.0
    ensures Vec3(r.px, r.py, r.pz) == p.position && Quat(r.rw, r.rx, r.ry, r.rz) == p.rotation
    ensures TruncToInt(r.timestampMs) == p.timestampMs
    ensures TruncToInt(r.buttons) == p.buttons && TruncToInt(r.trackingStatus) == p.trackingStatus
  {
    Row(p.position.x, p.position.y, p.position.z,
        p.rotation.w, p.rotation.x, p.rotation.y, p.rotation.z,
        p.timestampMs as real, p.buttons as real, p.trackingStatus as real,
        1.0)
  }

  /** Python slicing s[:n]: the first n elements, or all of s if it is shorter. */
  function Truncate(s: seq<byte>, n: nat): (r: seq<byte>)
    ensures |r| == if |s| <= n then |s| else n
    ensures r == s[..|r|]
  {
    if |s| <= n then s else s[..n]
  }

  function Zeros(n: nat): (z: seq<byte>)
    ensures |z| == n && forall k :: 0 <= k < n ==> z[k] == 0
  {
    seq(n, _ => 0)
  }

  /** The 64-byte segment write_pose leaves behind for an identifier: the
      segment is zeroed, then the first at most 63 bytes are copied in, so the
      last byte is always a NUL. */
  function EncodeMac(mac: seq<byte>): (seg: seq<byte>)
    ensures |seg| == MacStrLen
    ensures forall k :: 0 <= k < MacStrLen ==>
      seg[k] == if k < |mac| && k < MacStrLen - 1 then mac[k] else 0
    ensures seg[MacStrLen - 1] == 0
  {
    var raw := Truncate(mac, MacStrLen - 1);
    raw + Zeros(MacStrLen - |raw|)
  }

  predicate NulFree(s: seq<byte>)
  {
    forall k :: 0 <= k < |s| ==> s[k] != 0
  }

  /** Everything before the first NUL, or the whole sequence if it has none. */
  function BeforeNul(b: seq<byte>): (r: seq<byte>)
    ensures |r| <= |b| && r == b[..|r|]
    ensures NulFree(r)
    ensures |r| < |b| ==> b[|r|] == 0
  {
    if |b| == 0 || b[0] == 0 then [] else [b[0]] + BeforeNul(b[1..])
  }

  /** The slot decoder of read_pose: a slot whose valid flag is below one half
      reads as no data; otherwise the integer fields are truncated back from
      their floats and the identifier is cut at its first NUL. */
  function DecodeSlot(row: Row, mac: seq<byte>, writeTime: real, sequence: nat): (r: Option<Snapshot>)
    ensures r.None? <==> row.valid < 0.5
    ensures r.Some? ==>
      r.value.position == Vec3(row.px, row.py, row.pz) &&
      r.value.rotation == Quat(row.rw, row.rx, row.ry, row.rz) &&
      r.value.writeTime == writeTime && r.value.sequence == sequence
    ensures r.Some? ==>
      r.value.timestampMs == TruncToInt(row.timestampMs) &&
      r.value.buttons == TruncToInt(row.buttons) &&
      r.value.trackingStatus == TruncToInt(row.trackingStatus)
    ensures r.Some? ==> NulFree(r.value.mac) && r.value.mac <= mac
    ensures r.Some? && |r.value.mac| < |mac| ==> mac[|r.value.mac|] == 0
  {
    if row.valid < 0.5 then None
    else Some(Snapshot(
      Vec3(row.px, row.py, row.pz),
      Quat(row.rw, row.rx, row.ry, row.rz),
      TruncToInt(row.timestampMs),
      TruncToInt(row.buttons),
      TruncToInt(row.trackingStatus),
      BeforeNul(mac),
      writeTime,
      sequence))
  }

  /** Every integer survives the trip through a float field. */
  lemma TruncOfInt(n: int)
    ensures TruncToInt(n as real) == n
  {
  }

  /** A NUL-free sequence is its own prefix before the first NUL. */
  lemma BeforeNulOfNulFree(b: seq<byte>)
    requires NulFree(b)
    ensures BeforeNul(b) == b
  {
  }

  /** Padding that starts with a NUL does not change what is read back. */
  lemma {:induction false} BeforeNulPadded(a: seq<byte>, z: seq<byte>)
    requires |z| > 0 && z[0] == 0
    ensures BeforeNul(a + z) == BeforeNul(a)
  {
    if a == [] {
      assert a + z == z;
    } else if a[0] == 0 {
    } else {
      assert (a + z)[1..] == a[1..] + z;
      BeforeNulPadded(a[1..], z);
    }
  }

  /** Any identifier reads back as its first 63 bytes cut at the first NUL. */
  lemma MacDecode(mac: seq<byte>)
    ensures BeforeNul(EncodeMac(mac)) == BeforeNul(Truncate(mac, MacStrLen - 1))
  {
    var raw := Truncate(mac, MacStrLen - 1);
    BeforeNulPadded(raw, Zeros(MacStrLen - |raw|));
  }

  /** An identifier of at most 63 bytes with no NUL in it round-trips exactly. */
  lemma MacRoundTrip(mac: seq<byte>)
    requires |mac| < MacStrLen && NulFree(mac)
    ensures BeforeNul(EncodeMac(mac)) == mac
  {
    MacDecode(mac);
    BeforeNulOfNulFree(mac);
  }

  /** Decoding the row that was encoded for a pose gives back its position,
      rotation, timestamp, buttons and tracking status unchanged. */
  lemma RowRoundTrip(p: TrackerPose, mac: seq<byte>, writeTime: real, sequence: nat)
    ensures DecodeSlot(EncodeRow(p), mac, writeTime, sequence)
         == Some(Snapshot(p.position, p.rotation, p.timestampMs, p.buttons,
                          p.trackingStatus, BeforeNul(mac), writeTime, sequence))
  {
    TruncOfInt(p.timestampMs);
    TruncOfInt(p.buttons);
    TruncOfInt(p.trackingStatus);
  }
}
