# pyvut pose relay and tracker API, modelled in Dafny

This project models the core of `pyvut/api.py`. That file streams 6DoF poses
from up to five VIVE Ultimate Trackers to the programs that consume them. It
has three parts, and each has a module here:

- **Shared pose relay** (`SharedPoseBuffer`, module `Relay`, with the slot
  layout in `SlotCodec`). There are five slots. Each slot has an
  eleven-field float row (`px py pz rw rx ry rz timestamp_ms buttons
  tracking_status valid_flag`), a 64-byte NUL-padded identifier segment, a
  last-write wall-clock time and a sequence counter.
  - The relay contents are first modelled as a value (`seq<SlotState>`) with
    pure `Write` and `Read`. The lemmas state what the relay promises about
    them.
  - The class `SharedPoseBuffer` keeps the same contents the way the source
    does: a 5×11 `array2<real>`, a flat 320-byte array and two 5-element
    arrays, all updated in place. Its `WritePose` and `ReadPose` are proved
    against `Write` and `Read`.
- **In-process API** (`UltimateTrackerAPI`, module `TrackerApi`). It has:
  - a deduplicated, ordered callback list;
  - a latest-pose cache keyed by tracker index, modelled as a Python `dict`
    (last write wins, and iteration follows the order in which keys were
    first inserted);
  - per-event dispatch that calls every registered callback in order and logs
    each one that raises;
  - start/stop state for the poll thread.
- **Isolated tracker service** (`TrackerService`, module `Service`). It
  creates and owns a relay, turns relay reads into poses and records their
  age and sequence number. Its stop is guarded so that it releases the relay
  exactly once.

`Pose` holds the shared records: `TrackerPose`, `Vec3`, the `(w, x, y, z)`
quaternion `Quat`, `Option` and `byte`.

Modelling choices:

- **Wall-clock time** (`time.time()`) is a `now: real` parameter.
- **Float64 values** are `real`. Python's `int()` on a float is modelled as
  truncation toward zero (`TruncToInt`).
- **Sequence counters** are C `unsigned long` values. The model takes these
  as 64 bits wide, so `NextSequence` wraps to 0 after 2^64 − 1.
- **Hardware identifiers** are kept as their UTF-8 bytes.
- **`close`.** `close` on the owning instance calls `shm.unlink()` every
  time, and nothing in `close` guards against a repeat call. On POSIX,
  unlinking a name that is already gone fails, so a second `close` by the
  owner raises (`FileNotFoundError`). On Windows `SharedMemory.unlink` does
  nothing, so there a second `close` does not raise. The model follows
  POSIX: `SharedPoseBuffer.Close` reports `raised` on the owner's second call.
  `TrackerService.Stop` never reaches that case, because its `_running`
  guard lets it close only once.
- **Callback identity.** The callback list compares entries the way Python
  does: `in` matches an entry that is the same object or `==` to it, and
  removal keeps the entries that are `!=` to the callback. For callables,
  the same object is always `==` to itself, so the model's callback type
  parameter only needs equality.

## Model

| member | source | states |
|---|---|---|
| `SlotCodec.EncodeRow` | pyvut/api.py:64-70 | the row written for a pose has valid flag 1, holds the position and rotation unchanged, and its timestamp, buttons and status floats truncate back to the pose's integers |
| `SlotCodec.DecodeSlot` | pyvut/api.py:87-99 | a slot decodes to None exactly when its valid flag is below 0.5. Otherwise the snapshot carries the row's position and rotation, the write time and sequence, and the identifier's NUL-free prefix up to its first NUL |
| `SlotCodec.TruncToInt` | pyvut/api.py:93-95 | `int()` of a float truncates toward zero: the result lies between zero and the float, and less than 1 away from it |
| `SlotCodec.EncodeMac` | pyvut/api.py:71-74 | the segment is 64 bytes long. Its byte k is byte k of the identifier when k < len and k < 63, and 0 (NUL) otherwise. So the last byte is always 0 |
| `SlotCodec.BeforeNul` | pyvut/api.py:89 | `split(b"\x00", 1)[0]` gives a prefix of the segment with no NUL in it, followed in the segment by a NUL or by the segment's end |
| `SlotCodec.BeforeNulPadded` | pyvut/api.py:73-74 | zero padding after the copied identifier does not change what is read back |
| `SlotCodec.MacDecode` | pyvut/api.py:71-74 | any identifier reads back as its first 63 bytes, cut at the first NUL |
| `SlotCodec.MacRoundTrip` | pyvut/api.py:71-74 | an identifier of at most 63 bytes with no NUL reads back exactly |
| `SlotCodec.RowRoundTrip` | pyvut/api.py:64-70 | decoding the row written for a pose gives back its position, rotation, timestamp_ms, buttons and tracking_status unchanged (the integers survive the float row) |
| `Relay.NextSequence` | pyvut/api.py:76 | an unsigned-long increment: +1 below the maximum, 0 after it, and always below 2^64 |
| `Relay.Initial` | pyvut/api.py:25-32 | a new relay is well formed, and every slot has valid flag 0 and sequence 0 |
| `Relay.Write` | pyvut/api.py:60-76 | a write keeps the relay well formed: flags stay 0 or 1, each identifier segment stays NUL-terminated, counters stay in range |
| `Relay.Read` | pyvut/api.py:78-99 | a read gives data exactly when the index is in [0, 5) and the slot's valid flag is at least 0.5; the data then carries the slot's write time, sequence and identifier cut at its first NUL |
| `Relay.OutOfRangeIgnored` | pyvut/api.py:61-62 | for an index outside [0, 5), the write changes nothing and the read returns None |
| `Relay.WriteFrame` | pyvut/api.py:64-76 | a write to slot i leaves every other slot, and what it reads as, unchanged |
| `Relay.WriteUpdatesSlot` | pyvut/api.py:64-76 | after a write, slot i has valid flag 1, the encoded identifier, the write time, and its sequence number + 1 mod 2^64 |
| `Relay.WriteThenRead` | pyvut/api.py:60-99 | a read after a write returns the pose's position, rotation, timestamp_ms, buttons and tracking_status, the identifier's first 63 bytes up to the first NUL, the write time and the next sequence number |
| `Relay.WriteThenReadExact` | pyvut/api.py:60-99 | for an identifier of at most 63 bytes with no NUL, the read returns every relayed field exactly |
| `Relay.SequenceCountsWrites` | pyvut/api.py:76 | after any history of writes, a slot's counter has grown by the number of writes to that slot, mod 2^64 |
| `Relay.SequenceDetectsWrites` | pyvut/api.py:76 | with no write to a slot, the slot is unchanged. With between 1 and 2^64 − 1 writes, its counter differs from before |
| `Relay.ValidityIsSticky` | pyvut/api.py:70 | after any history of writes, a slot reads as None exactly when it read as None before and no write went to it |
| `Relay.NeverWrittenReadsNone` | pyvut/api.py:87-88 | in a new relay, a slot reads as None exactly when its index is out of range or nothing was written to it |
| `Relay.SharedPoseBuffer.constructor` | pyvut/api.py:25-33 | the arrays hold the zeroed initial contents, and the instance owns the region and has it mapped |
| `Relay.SharedPoseBuffer.WritePose` | pyvut/api.py:60-76 | the arrays afterwards hold exactly `Write` of their old contents, and only the four data arrays may change |
| `Relay.SharedPoseBuffer.StoreRow` | pyvut/api.py:64-70 | row i gets the encoded pose, and every entry of every other row keeps its value |
| `Relay.SharedPoseBuffer.StoreMac` | pyvut/api.py:71-74 | slot i's 64-byte segment becomes `EncodeMac` of the identifier, and every byte outside it keeps its value |
| `Relay.SharedPoseBuffer.ReadPose` | pyvut/api.py:78-99 | the result is `Read` of the current contents. The method changes nothing, so two reads with no write between them are equal, sequence included |
| `Relay.SharedPoseBuffer.Close` | pyvut/api.py:55-58 | the local mapping is closed. The owner makes one unlink attempt per call, and the call raises when the region was already unlinked |
| `Relay.SlotTwoScenario` | pyvut/api.py:60-99 | slot 3 of a new relay reads None. A write to slot 2 reads back exactly, with sequence 1. A second write with timestamp 1001 reads back with that timestamp and sequence 2 |
| `TrackerApi.WithCallback` | pyvut/api.py:191-192 | after adding, the callback is registered, the old list is a prefix of the new one, at most one entry was added, and the members are the old ones plus the callback |
| `TrackerApi.WithoutCallback` | pyvut/api.py:194-195 | removal drops every occurrence of the callback and keeps every other callback's multiplicity |
| `TrackerApi.AddIsIdempotent` | pyvut/api.py:191-192 | adding a callback twice gives the same list as adding it once |
| `TrackerApi.AddKeepsNoDuplicates` | pyvut/api.py:191-192 | add keeps the list free of duplicates, and a callback added twice occurs exactly once |
| `TrackerApi.NoDuplicatesOccursOnce` | pyvut/api.py:231-233 | in a list without duplicates each registered callback occurs once, so dispatch calls it exactly once per event |
| `TrackerApi.RemoveDistributes` | pyvut/api.py:195 | removal works entry by entry over a concatenation, so it keeps the order of the remaining callbacks |
| `TrackerApi.RemoveAbsent` | pyvut/api.py:195 | removing an unregistered callback leaves the list unchanged |
| `TrackerApi.AddThenRemove` | pyvut/api.py:191-195 | removing a callback right after adding it restores the list |
| `TrackerApi.RemoveKeepsNoDuplicates` | pyvut/api.py:195 | remove keeps the list free of duplicates |
| `TrackerApi.Failed` | pyvut/api.py:231-235 | the log entries are exactly the called callbacks that raised, in call order, and there are no more entries than calls |
| `TrackerApi.FailedCounts` | pyvut/api.py:231-235 | a callback that raises is logged as many times as it is called, and a callback that does not raise is never logged |
| `TrackerApi.FailedOncePerCallback` | pyvut/api.py:231-235 | with no callback registered twice, each callback that raises has exactly one log entry |
| `TrackerApi.Store` | pyvut/api.py:228-229 | after a store the keys are the old keys plus the pose's index, the pose is filed under its index, every other entry is kept, and the old iteration order is a prefix of the new one |
| `TrackerApi.Lookup` | pyvut/api.py:200-201 | a lookup gives a pose exactly when the index is a key, that pose is the cached one, and in a consistent cache it carries the index it was looked up by |
| `TrackerApi.Values` | pyvut/api.py:206-207 | the list has one pose per key in iteration order, the pose at position k is the one cached under the k-th key, and it carries that key as its tracker index |
| `TrackerApi.StoreKeepsValid` | pyvut/api.py:228-229 | storing a pose keeps the cache consistent: each key is listed once in the iteration order, and each pose is filed under its own index |
| `TrackerApi.LookupAfterStore` | pyvut/api.py:197-201 | last write wins: after a store, the lookup returns the new pose under its index and the old entry under any other index |
| `TrackerApi.ValuesAfterStore` | pyvut/api.py:203-207 | a pose for a new tracker is appended to the iteration, and a pose for a known tracker replaces the old one in its place |
| `TrackerApi.ValuesAreCachedPoses` | pyvut/api.py:203-207 | the iteration yields one pose per tracker that has reported: every cached pose appears, and only cached poses appear |
| `TrackerApi.UltimateTrackerApi.constructor` | pyvut/api.py:141-153 | the poll interval is clamped at 0; the callback list, cache and log start empty; no thread is running |
| `TrackerApi.UltimateTrackerApi.Start` | pyvut/api.py:163-171 | a no-op while the current thread is alive. Otherwise it sets running and launches exactly one new thread |
| `TrackerApi.UltimateTrackerApi.Stop` | pyvut/api.py:173-179 | afterwards running is cleared and no thread is held, whatever the state was before (so a second stop changes nothing) |
| `TrackerApi.UltimateTrackerApi.AddPoseCallback` | pyvut/api.py:188-192 | the list becomes `WithCallback` of the old list, and stays free of duplicates |
| `TrackerApi.UltimateTrackerApi.RemovePoseCallback` | pyvut/api.py:194-195 | the list becomes `WithoutCallback` of the old list, and stays free of duplicates |
| `TrackerApi.UltimateTrackerApi.GetLatestPose` | pyvut/api.py:197-201 | returns the cache lookup for the index, and None for a tracker that never reported |
| `TrackerApi.UltimateTrackerApi.IterLatestPoses` | pyvut/api.py:203-207 | returns the cached poses in dict iteration order |
| `TrackerApi.UltimateTrackerApi.HandlePoseEvent` | pyvut/api.py:215-235 | the cache gets the pose under its index. Every callback registered at event time is called, in order, whether or not earlier ones raised an `Exception`. The log grows by exactly the callbacks that raised. The callback list keeps them all |
| `Service.PoseFromSnapshot` | pyvut/api.py:281-291 | the rebuilt pose has the requested tracker index, the snapshot's identifier, timestamp, buttons, status, position and rotation, and zero acceleration and angular velocity |
| `Service.AgeMs` | pyvut/api.py:279 | the age is the time since the write, in milliseconds, and is non-negative exactly when the write is not in the future |
| `Service.RelayedPoseRoundTrip` | pyvut/api.py:275-291 | for a tracker index in [0, 5) and an identifier of at most 63 bytes with no NUL, a pose the child writes comes back from `get_pose` unchanged, except that acceleration and angular velocity are zero. Longer identifiers come back cut to 63 bytes (`Relay.WriteThenRead`) |
| `Service.TrackerService.constructor` | pyvut/api.py:241-261 | the service owns a fresh, zeroed relay and is running with no observed age or sequence |
| `Service.TrackerService.RelayPose` | pyvut/api.py:106-107 | the child's callback writes each pose into the relay at the pose's own tracker index |
| `Service.TrackerService.GetPose` | pyvut/api.py:275-291 | a slot without data gives None and leaves the age and sequence fields unchanged. Otherwise it gives the snapshot's pose and records its age and sequence |
| `Service.TrackerService.Stop` | pyvut/api.py:293-301 | the first call unlinks the relay exactly once, without error. A later call changes nothing |
| `Service.RelayThenGetTwice` | pyvut/api.py:275-291 | in a new service, one pose relayed by the child is read back by two `get_pose` calls as the same pose with zeroed acceleration and angular velocity, and the recorded sequence is 1 |
| `Service.StopTwice` | pyvut/api.py:293-301 | after two stops the relay has seen exactly one unlink |

## Left out

- Shared-memory mapping and the attach mechanics (`SharedMemory`, `attach`, `mp.Array`, `mp.Lock`, `mp.Event`) are operating-system calls. Only the buffer contents and the mapped/unlinked state are modelled.
- Locks and atomicity: the model is sequential, so each call is atomic.
- Threads and processes are not modelled: `_loop_forever`, the thread and process start, join with timeout, daemon flags, and `_tracker_process_main` except its pose callback (`RelayPose`). Thread liveness is an input to `Start`.
- The context-manager and finaliser methods are left out, because they add nothing beyond `start` and `stop`. `UltimateTrackerAPI.__enter__` calls `start` and returns the instance. `TrackerService.__enter__` only returns the instance. Each `__exit__` calls `stop`, and `TrackerService.__del__` calls `stop` and swallows any `Exception`.
- `tracker_group`, `last_pose_age_ms` and `last_pose_sequence` are plain field reads, and the `trackers` property always returns `None`, so they are left out.
- `ViveTrackerGroup`, its listener registration and `mac_str` belong to the device layer, which is not part of this model. A pose event arrives as a ready-made `TrackerPose` whose identifier is already formatted.
- UTF-8 encoding, and decoding with `errors="ignore"`, are not modelled: identifiers are handled as bytes.
- Float64 arithmetic is not modelled: the age in milliseconds is computed on reals.
- `SlotCodec.RowRoundTrip`: in the source every integer of magnitude up to 2^53 survives the float64 row, and a larger one survives only when float64 can represent it exactly. The model's real-valued row stores every integer exactly.
- `Relay.NextSequence`: assumes a 64-bit `unsigned long`; where it is 32 bits wide the counter wraps at 2^32.
- Position and rotation are typed as `Vec3` and `Quat`, so numpy broadcasting is not modelled. In the source, a length-1 array is broadcast into all three position (or all four rotation) fields and written without error. Any length other than 1 or 3 (1 or 4 for rotation) makes the source raise partway through a write. Neither case can occur in the model.
- Operating-system errors of `close` are not modelled, except the second unlink. Use of a relay after `close` is not checked either.
- `TrackerApi.UltimateTrackerApi.HandlePoseEvent`: `raises` stands for a callback raising an `Exception`, which the source catches and logs before going on. A `BaseException` that is not an `Exception` (`SystemExit`, `KeyboardInterrupt`, `GeneratorExit`) is not caught. It skips the remaining callbacks and leaves the poll loop, ending the poll thread. The model does not capture that outcome: every raise counts as caught and logged.
- Callbacks are represented only by whether they raise for an event (`raises`). What they do otherwise is not modelled. This includes a callback that adds or removes callbacks during dispatch, which the source tolerates by iterating over a copy of the list.
- Pose objects are values, so whether the cache hands out the same object or a copy makes no difference in the model.
