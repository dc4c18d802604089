/**
 * The nearest-preceding query `find_most_recent_waypoint`
 * (src/main.rs:106-127): scan the waypoints in order, skip untimed ones,
 * stop at the first timestamp strictly after the requested instant and
 * return the last waypoint accepted before it. The result is a position in
 * the scanned sequence, which is what the returned reference identifies.
 */
module Query {
  import opened Wrappers
  import opened Gpx

  /**
   * `w` is timed and its timestamp is strictly after `requested`: the `break`
   * test. An untimed waypoint is never late, and neither is one stamped
   * exactly at `requested`.
   */
  function IsLate(w: Waypoint, requested: Instant): (r: bool)
    ensures r ==> w.time.Some?
    ensures w.time == Some(requested) ==> !r
  {
    w.time.Some? && w.time.value > requested
  }

  /**
   * Position of the first waypoint whose timestamp is strictly after
   * `requested`, or `|points|` when there is none.
   */
  function FirstLate(points: seq<Waypoint>, requested: Instant): (k: nat)
    ensures k <= |points|
    ensures forall j :: 0 <= j < k ==> !IsLate(points[j], requested)
    ensures k < |points| ==> IsLate(points[k], requested)
  {
    if points == [] then 0
    else if IsLate(points[0], requested) then 0
    else 1 + FirstLate(points[1..], requested)
  }

  /** Position of the last timed waypoint among `points[..k]`, if any. */
  function LastTimedBefore(points: seq<Waypoint>, k: nat): (r: Option<nat>)
    requires k <= |points|
    ensures r.Some? ==> r.value < k && points[r.value].time.Some?
    ensures r.Some? ==> forall j :: r.value < j < k ==> points[j].time.None?
    ensures r.None? ==> forall j :: 0 <= j < k ==> points[j].time.None?
  {
    if k == 0 then None
    else if points[k - 1].time.Some? then Some(k - 1)
    else LastTimedBefore(points, k - 1)
  }

  /**
   * What the query answers: the last timed waypoint of the longest prefix in
   * which no timestamp exceeds `requested`. The answer is timed and not
   * after `requested`, and every waypoint between it and the stopping point
   * is untimed; there is no answer exactly when that prefix holds no timed
   * waypoint.
   */
  function MostRecent(points: seq<Waypoint>, requested: Instant): (r: Option<nat>)
    ensures r.Some? ==> r.value < FirstLate(points, requested) && points[r.value].time.Some?
                        && points[r.value].time.value <= requested
    ensures r.Some? ==> forall j :: r.value < j < FirstLate(points, requested) ==> points[j].time.None?
    ensures r.None? <==> forall j :: 0 <= j < FirstLate(points, requested) ==> points[j].time.None?
  {
    LastTimedBefore(points, FirstLate(points, requested))
  }

  /** The loop of `find_most_recent_waypoint`, with its `continue` and `break`. */
  method FindMostRecentWaypoint(points: seq<Waypoint>, requested: Instant) returns (mostRecent: Option<nat>)
    ensures mostRecent == MostRecent(points, requested)
  {
    mostRecent := None;
    ghost var stop := |points|;
    for i := 0 to |points|
      invariant i <= FirstLate(points, requested)
      invariant mostRecent == LastTimedBefore(points, i)
      invariant stop == |points|
    {
      var waypoint := points[i];
      if waypoint.time.None? {
        continue;
      }
      if waypoint.time.value > requested {
        stop := i;
        break;
      }
      mostRecent := Some(i);
    }
    assert stop == FirstLate(points, requested);
    assert mostRecent == LastTimedBefore(points, stop);
  }

  /** Position of the first timed waypoint, if any. */
  function FirstTimed(points: seq<Waypoint>): (r: Option<nat>)
    ensures r.Some? ==> r.value < |points| && points[r.value].time.Some?
    ensures r.Some? ==> forall j :: 0 <= j < r.value ==> points[j].time.None?
    ensures r.None? ==> forall j :: 0 <= j < |points| ==> points[j].time.None?
  {
    if points == [] then None
    else if points[0].time.Some? then Some(0)
    else
      match FirstTimed(points[1..])
      case None => None
      case Some(i) => Some(i + 1)
  }

  /**
   * There is no answer exactly when there is no timed waypoint at all or the
   * first timed one is already later than `requested`; untimed waypoints in
   * front of it make no difference.
   */
  lemma MostRecentNone(points: seq<Waypoint>, requested: Instant)
    ensures MostRecent(points, requested).None? <==>
              FirstTimed(points).None? || points[FirstTimed(points).value].time.value > requested
  {
    var k := FirstLate(points, requested);
    match FirstTimed(points)
    case None =>
    case Some(i) =>
      if points[i].time.value > requested {
        assert k <= i;
      } else {
        assert k > i;
      }
  }

  /** Position `i` of a sequence that had an extra element inserted at `p`. */
  function ShiftFrom(r: Option<nat>, p: nat): Option<nat> {
    match r
    case None => None
    case Some(i) => Some(if i < p then i else i + 1)
  }

  lemma {:induction false} FirstLateInsertUntimed(points: seq<Waypoint>, p: nat, w: Waypoint, requested: Instant)
    requires p <= |points| && w.time.None?
    ensures FirstLate(points[..p] + [w] + points[p..], requested) ==
              (var k := FirstLate(points, requested); if k < p then k else k + 1)
  {
    var s' := points[..p] + [w] + points[p..];
    if p == 0 {
      assert s' == [w] + points;
      assert s'[1..] == points;
    } else {
      assert s'[0] == points[0];
      if !IsLate(points[0], requested) {
        assert s'[1..] == points[1..][..p - 1] + [w] + points[1..][p - 1..];
        FirstLateInsertUntimed(points[1..], p - 1, w, requested);
      }
    }
  }

  lemma {:induction false} LastTimedInsertUntimed(points: seq<Waypoint>, p: nat, w: Waypoint, k: nat)
    requires p <= |points| && w.time.None? && k <= |points|
    ensures LastTimedBefore(points[..p] + [w] + points[p..], if k < p then k else k + 1) ==
              ShiftFrom(LastTimedBefore(points, k), p)
  {
    var s' := points[..p] + [w] + points[p..];
    if k > 0 {
      if k < p {
        assert s'[k - 1] == points[k - 1];
      } else if k == p {
        assert s'[k] == w;
        assert s'[k - 1] == points[k - 1];
      } else {
        assert s'[k] == points[k - 1];
      }
      if points[k - 1].time.None? {
        LastTimedInsertUntimed(points, p, w, k - 1);
      }
    } else if p == 0 {
      assert s'[0] == w;
    }
  }

  /**
   * Untimed waypoints are skipped: inserting one anywhere neither becomes the
   * answer nor stops the scan; the answer is the same waypoint as before, at
   * its shifted position.
   */
  lemma UntimedSkipped(points: seq<Waypoint>, p: nat, w: Waypoint, requested: Instant)
    requires p <= |points| && w.time.None?
    ensures MostRecent(points[..p] + [w] + points[p..], requested) ==
              ShiftFrom(MostRecent(points, requested), p)
  {
    FirstLateInsertUntimed(points, p, w, requested);
    LastTimedInsertUntimed(points, p, w, FirstLate(points, requested));
  }

  /**
   * On a sorted sequence the answer is the greatest waypoint not after
   * `requested`: it and everything before it are at or before `requested`,
   * everything after it is strictly later. There is no answer exactly when
   * the sequence is empty or its first waypoint is already later, and a
   * request at or after the last waypoint returns the last one.
   */
  lemma SortedMostRecent(points: seq<Waypoint>, requested: Instant)
    requires Sorted(points)
    ensures MostRecent(points, requested).None? <==>
              (|points| == 0 || points[0].time.value > requested)
    ensures MostRecent(points, requested).Some? ==>
              var i := MostRecent(points, requested).value;
              (forall j :: 0 <= j <= i ==> points[j].time.value <= requested) &&
              (forall j :: i < j < |points| ==> points[j].time.value > requested)
    ensures |points| > 0 && points[|points| - 1].time.value <= requested ==>
              MostRecent(points, requested) == Some(|points| - 1)
  {
    var k := FirstLate(points, requested);
    if k > 0 {
      assert points[k - 1].time.Some?;
    }
    if k < |points| {
      forall j | k < j < |points| ensures points[j].time.value > requested {
        assert points[k].time.value <= points[j].time.value;
      }
    }
  }

  /**
   * Inclusive bound: when some waypoint of a sorted sequence is exactly at
   * `requested`, the answer is at `requested` too, and it is the last of the
   * waypoints at that instant.
   */
  lemma SortedExactMatch(points: seq<Waypoint>, requested: Instant, k: nat)
    requires Sorted(points) && k < |points| && points[k].time.value == requested
    ensures MostRecent(points, requested).Some?
    ensures var i := MostRecent(points, requested).value;
              k <= i && points[i].time.value == requested &&
              forall j :: i < j < |points| ==> points[j].time.value != requested
  {
    SortedMostRecent(points, requested);
  }
}
