/** The bookkeeping of UltimateTrackerAPI in pyvut/api.py: the ordered,
    deduplicated callback list, the latest-pose cache keyed by tracker index,
    per-event dispatch with failures isolated per callback, and the
    started/stopped state of the poll thread. */
module TrackerApi {
  import opened Pose

  predicate NoDuplicates<T(==)>(s: seq<T>)
  {
    forall j, k :: 0 <= j < k < |s| ==> s[j] != s[k]
  }

  // ---------------------------------------------------------------------
  // The callback list

  /** Registering a callback: it goes to the end of the list unless it is
      already registered, in which case the list is unchanged. */
  function WithCallback<C(==, !new)>(cbs: seq<C>, cb: C): (r: seq<C>)
    ensures cb in r && cbs <= r && |r| <= |cbs| + 1
    ensures forall x :: x in r <==> x in cbs || x == cb
  {
    if cb in cbs then cbs else cbs + [cb]
  }

  /** Unregistering a callback: every entry equal to cb goes, and the other
      entries stay in their order. */
  function WithoutCallback<C(==, !new)>(cbs: seq<C>, cb: C): (r: seq<C>)
    ensures forall x :: multiset(r)[x] == if x == cb then 0 else multiset(cbs)[x]
    decreases |cbs|
  {
    if cbs == [] then []
    else
      assert cbs == [cbs[0]] + cbs[1..];
      (if cbs[0] == cb then [] else [cbs[0]]) + WithoutCallback(cbs[1..], cb)
  }

  /** Adding the same callback twice is the same as adding it once. */
  lemma AddIsIdempotent<C(!new)>(cbs: seq<C>, cb: C)
    ensures WithCallback(WithCallback(cbs, cb), cb) == WithCallback(cbs, cb)
  {
  }

  /** In a list without duplicates an entry occurs exactly once. */
  lemma {:induction false} NoDuplicatesOccursOnce<T>(s: seq<T>, x: T)
    requires NoDuplicates(s) && x in s
    ensures multiset(s)[x] == 1
    decreases |s|
  {
    assert s == [s[0]] + s[1..];
    if s[0] == x {
      assert x !in s[1..] by {
        forall k | 0 <= k < |s[1..]| ensures s[1..][k] != x {
          assert s[1..][k] == s[k + 1];
        }
      }
    } else {
      assert NoDuplicates(s[1..]) by {
        forall j, k | 0 <= j < k < |s[1..]| ensures s[1..][j] != s[1..][k] {
          assert s[1..][j] == s[j + 1] && s[1..][k] == s[k + 1];
        }
      }
      NoDuplicatesOccursOnce(s[1..], x);
    }
  }

  /** The list stays free of duplicates under add, and a callback that was
      added is registered exactly once however often it was added. */
  lemma AddKeepsNoDuplicates<C(!new)>(cbs: seq<C>, cb: C)
    requires NoDuplicates(cbs)
    ensures NoDuplicates(WithCallback(cbs, cb))
    ensures multiset(WithCallback(WithCallback(cbs, cb), cb))[cb] == 1
  {
    AddIsIdempotent(cbs, cb);
    NoDuplicatesOccursOnce(WithCallback(cbs, cb), cb);
  }

  /** Removal works entry by entry, so it keeps the order of what remains. */
  lemma {:induction false} RemoveDistributes<C(!new)>(a: seq<C>, b: seq<C>, cb: C)
    ensures WithoutCallback(a + b, cb) == WithoutCallback(a, cb) + WithoutCallback(b, cb)
    decreases |a|
  {
    if a == [] {
      assert a + b == b;
    } else {
      assert (a + b)[1..] == a[1..] + b;
      RemoveDistributes(a[1..], b, cb);
    }
  }

  /** Removing a callback that is not registered changes nothing. */
  lemma {:induction false} RemoveAbsent<C(!new)>(cbs: seq<C>, cb: C)
    requires cb !in cbs
    ensures WithoutCallback(cbs, cb) == cbs
    decreases |cbs|
  {
    if cbs != [] {
      assert cb !in cbs[1..];
      RemoveAbsent(cbs[1..], cb);
      assert cbs == [cbs[0]] + cbs[1..];
    }
  }

  /** Removing a callback right after adding it restores the list. */
  lemma AddThenRemove<C(!new)>(cbs: seq<C>, cb: C)
    requires cb !in cbs
    ensures WithoutCallback(WithCallback(cbs, cb), cb) == cbs
  {
    RemoveDistributes(cbs, [cb], cb);
    RemoveAbsent(cbs, cb);
  }

  /** The list stays free of duplicates under remove. */
  lemma {:induction false} RemoveKeepsNoDuplicates<C(!new)>(cbs: seq<C>, cb: C)
    requires NoDuplicates(cbs)
    ensures NoDuplicates(WithoutCallback(cbs, cb))
    decreases |cbs|
  {
    if cbs != [] {
      var tail := cbs[1..];
      assert NoDuplicates(tail) by {
        forall j, k | 0 <= j < k < |tail| ensures tail[j] != tail[k] {
          assert tail[j] == cbs[j + 1] && tail[k] == cbs[k + 1];
        }
      }
      RemoveKeepsNoDuplicates(tail, cb);
      var rest := WithoutCallback(tail, cb);
      if cbs[0] != cb {
        assert cbs[0] !in tail by {
          forall k | 0 <= k < |tail| ensures tail[k] != cbs[0] {
            assert tail[k] == cbs[k + 1];
          }
        }
        assert multiset(rest)[cbs[0]] == 0;
        assert cbs[0] !in rest;
        var r := [cbs[0]] + rest;
        forall j, k | 0 <= j < k < |r| ensures r[j] != r[k] {
          if j == 0 {
            assert r[k] == rest[k - 1];
          } else {
            assert r[j] == rest[j - 1] && r[k] == rest[k - 1];
          }
        }
      }
    }
  }

  // ---------------------------------------------------------------------
  // Dispatch of one pose event

  /** The callbacks whose call raises for this event, in call order: one log
      entry each. */
  function Failed<C(==, !new)>(cbs: seq<C>, pose: TrackerPose, raises: (C, TrackerPose) -> bool): (r: seq<C>)
    ensures |r| <= |cbs|
    ensures forall x :: x in r <==> x in cbs && raises(x, pose)
    decreases |cbs|
  {
    if cbs == [] then []
    else
      var last := cbs[|cbs| - 1];
      assert cbs == cbs[..|cbs| - 1] + [last];
      Failed(cbs[..|cbs| - 1], pose, raises) + (if raises(last, pose) then [last] else [])
  }

  /** Each callback that raises is logged once for each time it is called,
      and a callback that does not raise is never logged. */
  lemma {:induction false} FailedCounts<C(!new)>(cbs: seq<C>, pose: TrackerPose, raises: (C, TrackerPose) -> bool)
    ensures forall x :: multiset(Failed(cbs, pose, raises))[x] == if raises(x, pose) then multiset(cbs)[x] else 0
    decreases |cbs|
  {
    if cbs != [] {
      var init := cbs[..|cbs| - 1];
      assert cbs == init + [cbs[|cbs| - 1]];
      FailedCounts(init, pose, raises);
    }
  }

  /** With no callback registered twice, each callback that raises has
      exactly one log entry. */
  lemma FailedOncePerCallback<C(!new)>(cbs: seq<C>, pose: TrackerPose, raises: (C, TrackerPose) -> bool, x: C)
    requires NoDuplicates(cbs) && x in cbs && raises(x, pose)
    ensures multiset(Failed(cbs, pose, raises))[x] == 1
  {
    FailedCounts(cbs, pose, raises);
    NoDuplicatesOccursOnce(cbs, x);
  }

  // ---------------------------------------------------------------------
  // The latest-pose cache: a Python dict, so iteration follows the order in
  // which the keys were first inserted

  datatype PoseCache = PoseCache(poses: map<int, TrackerPose>, order: seq<int>)

  const EmptyCache: PoseCache := PoseCache(map[], [])

  /** The order lists each key once, exactly the keys of the map, and every
      pose is filed under its own tracker index. */
  ghost predicate CacheValid(c: PoseCache)
  {
    NoDuplicates(c.order) &&
    (forall i :: 0 <= i < |c.order| ==> c.order[i] in c.poses) &&
    (forall k :: k in c.poses ==> k in c.order) &&
    (forall k :: k in c.poses ==> c.poses[k].trackerIndex == k)
  }

  /** Caching a pose under its tracker index: last write wins, and a new key
      goes to the end of the iteration order. */
  function Store(c: PoseCache, pose: TrackerPose): (r: PoseCache)
    ensures r.poses.Keys == c.poses.Keys + {pose.trackerIndex}
    ensures r.poses[pose.trackerIndex] == pose
    ensures forall k :: k in c.poses && k != pose.trackerIndex ==> r.poses[k] == c.poses[k]
    ensures c.order <= r.order
  {
    PoseCache(c.poses[pose.trackerIndex := pose],
              if pose.trackerIndex in c.poses then c.order else c.order + [pose.trackerIndex])
  }

  /** The cached pose for a tracker index, or nothing when that tracker has
      never reported. */
  function Lookup(c: PoseCache, trackerIndex: int): (r: Option<TrackerPose>)
    ensures r.Some? <==> trackerIndex in c.poses
    ensures r.Some? ==> r.value == c.poses[trackerIndex]
    ensures CacheValid(c) && r.Some? ==> r.value.trackerIndex == trackerIndex
  {
    if trackerIndex in c.poses then Some(c.poses[trackerIndex]) else None
  }

  /** The cached poses as a list, one per key in the order the keys were
      first inserted. */
  function Values(c: PoseCache): (r: seq<TrackerPose>)
    requires CacheValid(c)
    ensures |r| == |c.order|
    ensures forall k :: 0 <= k < |r| ==> r[k] == c.poses[c.order[k]] && r[k].trackerIndex == c.order[k]
  {
    seq(|c.order|, k requires 0 <= k < |c.order| => c.poses[c.order[k]])
  }

  lemma StoreKeepsValid(c: PoseCache, pose: TrackerPose)
    requires CacheValid(c)
    ensures CacheValid(Store(c, pose))
  {
    var c' := Store(c, pose);
    if pose.trackerIndex !in c.poses {
      forall j, k | 0 <= j < k < |c'.order| ensures c'.order[j] != c'.order[k] {
        if k == |c.order| {
          assert c.order[j] in c.poses;
        }
      }
    }
  }

  /** Last write wins: a lookup after a store sees the stored pose under its
      index and the old pose under every other index. */
  lemma LookupAfterStore(c: PoseCache, pose: TrackerPose, trackerIndex: int)
    ensures Lookup(Store(c, pose), trackerIndex)
         == if trackerIndex == pose.trackerIndex then Some(pose) else Lookup(c, trackerIndex)
  {
  }

  /** Iterating after a store: a pose for a new tracker is appended, and a
      pose for a known tracker replaces the old one where it stood. */
  lemma ValuesAfterStore(c: PoseCache, pose: TrackerPose)
    requires CacheValid(c)
    ensures CacheValid(Store(c, pose))
    ensures pose.trackerIndex !in c.poses ==> Values(Store(c, pose)) == Values(c) + [pose]
    ensures pose.trackerIndex in c.poses ==>
      |Values(Store(c, pose))| == |Values(c)| &&
      forall k :: 0 <= k < |Values(c)| ==>
        Values(Store(c, pose))[k] == if c.order[k] == pose.trackerIndex then pose else Values(c)[k]
  {
    StoreKeepsValid(c, pose);
  }

  lemma {:induction false} DistinctCardinality(s: seq<int>)
    requires NoDuplicates(s)
    ensures |set x | x in s| == |s|
    decreases |s|
  {
    if s != [] {
      var tail := s[1..];
      assert NoDuplicates(tail) by {
        forall j, k | 0 <= j < k < |tail| ensures tail[j] != tail[k] {
          assert tail[j] == s[j + 1] && tail[k] == s[k + 1];
        }
      }
      DistinctCardinality(tail);
      assert s[0] !in tail by {
        forall k | 0 <= k < |tail| ensures tail[k] != s[0] {
          assert tail[k] == s[k + 1];
        }
      }
      assert (set x | x in s) == {s[0]} + (set x | x in tail);
    }
  }

  /** iter_latest_poses yields one pose per tracker that has reported, and
      exactly the cached poses. */
  lemma ValuesAreCachedPoses(c: PoseCache)
    requires CacheValid(c)
    ensures |Values(c)| == |c.poses|
    ensures forall k :: k in c.poses ==> c.poses[k] in Values(c)
    ensures forall p :: p in Values(c) ==> p in c.poses.Values
  {
    DistinctCardinality(c.order);
    forall x | x in c.order ensures x in c.poses.Keys {
      var j :| 0 <= j < |c.order| && c.order[j] == x;
    }
    forall x | x in c.poses.Keys ensures x in c.order { }
    assert c.poses.Keys == set x | x in c.order;
    forall k | k in c.poses ensures c.poses[k] in Values(c) {
      var j :| 0 <= j < |c.order| && c.order[j] == k;
      assert Values(c)[j] == c.poses[k];
    }
    forall p | p in Values(c) ensures p in c.poses.Values {
      var j :| 0 <= j < |Values(c)| && Values(c)[j] == p;
      assert c.order[j] in c.poses;
    }
  }

  // ---------------------------------------------------------------------
  // The API object

  class UltimateTrackerApi<C(==, !new)> {
    var pollInterval: real
    var poseCallbacks: seq<C>
    var latestPose: PoseCache
    /** One entry per callback call that raised (logger.exception). */
    var errorLog: seq<C>
    /** Whether the _running event is set. */
    var running: bool
    /** Whether _thread refers to a thread. */
    var hasThread: bool
    /** How many poll threads start has launched. */
    var threadsStarted: nat

    ghost predicate Valid()
      reads this
    {
      NoDuplicates(poseCallbacks) && CacheValid(latestPose)
    }

    /** A negative poll interval is clamped to zero. */
    constructor (pollInterval: real)
      ensures Valid()
      ensures this.pollInterval == if pollInterval < 0.0 then 0.0 else pollInterval
      ensures poseCallbacks == [] && latestPose == EmptyCache && errorLog == []
      ensures !running && !hasThread && threadsStarted == 0
    {
      this.pollInterval := if pollInterval < 0.0 then 0.0 else pollInterval;
      poseCallbacks := [];
      latestPose := EmptyCache;
      errorLog := [];
      running := false;
      hasThread := false;
      threadsStarted := 0;
    }

    /** start: a no-op while the current poll thread is alive (its liveness
        is observed from the thread library and passed in); otherwise sets
        the running event and launches one new thread. */
    method Start(threadAlive: bool)
      modifies this`running, this`hasThread, this`threadsStarted
      ensures if old(hasThread) && threadAlive
        then running == old(running) && hasThread && threadsStarted == old(threadsStarted)
        else running && hasThread && threadsStarted == old(threadsStarted) + 1
    {
      if hasThread && threadAlive {
        return;
      }
      running := true;
      hasThread := true;
      threadsStarted := threadsStarted + 1;
    }

    /** stop: clears the running event and forgets the thread (after a join
        bounded by a timeout); calling it again changes nothing more. */
    method Stop()
      modifies this`running, this`hasThread
      ensures !running && !hasThread
    {
      running := false;
      hasThread := false;
    }

    method AddPoseCallback(cb: C)
      requires Valid()
      modifies this`poseCallbacks
      ensures Valid()
      ensures poseCallbacks == WithCallback(old(poseCallbacks), cb)
    {
      AddKeepsNoDuplicates(poseCallbacks, cb);
      if cb !in poseCallbacks {
        poseCallbacks := poseCallbacks + [cb];
      }
    }

    method RemovePoseCallback(cb: C)
      requires Valid()
      modifies this`poseCallbacks
      ensures Valid()
      ensures poseCallbacks == WithoutCallback(old(poseCallbacks), cb)
    {
      RemoveKeepsNoDuplicates(poseCallbacks, cb);
      poseCallbacks := WithoutCallback(poseCallbacks, cb);
    }

    method GetLatestPose(trackerIndex: int) returns (r: Option<TrackerPose>)
      ensures r == Lookup(latestPose, trackerIndex)
    {
      r := Lookup(latestPose, trackerIndex);
    }

    method IterLatestPoses() returns (r: seq<TrackerPose>)
      requires Valid()
      ensures r == Values(latestPose)
    {
      r := Values(latestPose);
    }

    /** _handle_pose_event: cache the pose under its tracker index, then call
        every callback registered at that moment, in order. A callback that
        raises (as `raises` says) is logged and the loop goes on. The calls
        made are returned in order. */
    method HandlePoseEvent(pose: TrackerPose, raises: (C, TrackerPose) -> bool) returns (called: seq<C>)
      requires Valid()
      modifies this`latestPose, this`errorLog
      ensures Valid()
      ensures latestPose == Store(old(latestPose), pose)
      ensures called == poseCallbacks
      ensures errorLog == old(errorLog) + Failed(poseCallbacks, pose, raises)
    {
      StoreKeepsValid(latestPose, pose);
      latestPose := Store(latestPose, pose);
      var snapshot := poseCallbacks;
      called := [];
      var i := 0;
      while i < |snapshot|
        invariant 0 <= i <= |snapshot|
        invariant called == snapshot[..i]
        invariant Valid() && latestPose == Store(old(latestPose), pose)
        invariant errorLog == old(errorLog) + Failed(snapshot[..i], pose, raises)
      {
        var callback := snapshot[i];
        assert snapshot[..i + 1][..i] == snapshot[..i];
        called := called + [callback];
        if raises(callback, pose) {
          errorLog := errorLog + [callback];
        }
        i := i + 1;
      }
      assert snapshot[..i] == snapshot;
    }
  }
}
