/**
 * Index building (src/main.rs:24-37): flatten the tracks into one vector,
 * sort it in place by timestamp with a stable comparison, then read the
 * first and last timestamps. The comparator and the reads of `first` and
 * `last` unwrap options; those panics are the error results here.
 */
module Index {
  import opened Wrappers
  import opened Gpx
  import opened Seqs

  /** The timestamp of a timed waypoint (the comparator's `time.unwrap()`). */
  function TimeOf(w: Waypoint): Instant
    requires w.time.Some?
  {
    w.time.value
  }

  /**
   * Stable insertion of `x` into `s`: `x` goes after every element whose
   * timestamp is not later than its own.
   */
  function Insert(x: Waypoint, s: seq<Waypoint>): (r: seq<Waypoint>)
    requires x.time.Some? && AllTimed(s)
    ensures AllTimed(r) && |r| == |s| + 1
  {
    if s == [] then [x]
    else if TimeOf(x) < TimeOf(s[0]) then [x] + s
    else [s[0]] + Insert(x, s[1..])
  }

  /**
   * The stable sort by timestamp that `sort_by` performs: each element in
   * turn is inserted into the sorted result of the ones before it.
   */
  function SortByTime(s: seq<Waypoint>): (r: seq<Waypoint>)
    requires AllTimed(s)
    ensures AllTimed(r) && |r| == |s|
  {
    if s == [] then []
    else Insert(s[|s| - 1], SortByTime(s[..|s| - 1]))
  }

  /** Insertion adds `x` and loses nothing. */
  lemma {:induction false} InsertPermutes(x: Waypoint, s: seq<Waypoint>)
    requires x.time.Some? && AllTimed(s)
    ensures multiset(Insert(x, s)) == multiset(s) + multiset{x}
  {
    if s != [] && TimeOf(x) >= TimeOf(s[0]) {
      assert s == [s[0]] + s[1..];
      InsertPermutes(x, s[1..]);
    }
  }

  /** The sort is a permutation of its input. */
  lemma {:induction false} SortByTimePermutes(s: seq<Waypoint>)
    requires AllTimed(s)
    ensures multiset(SortByTime(s)) == multiset(s)
  {
    if s != [] {
      var n := |s| - 1;
      assert s == s[..n] + [s[n]];
      SortByTimePermutes(s[..n]);
      InsertPermutes(s[n], SortByTime(s[..n]));
    }
  }

  /** The waypoints of `s` stamped exactly `t`, in their order in `s`. */
  function AtTime(s: seq<Waypoint>, t: Instant): seq<Waypoint> {
    if s == [] then []
    else (if s[0].time == Some(t) then [s[0]] else []) + AtTime(s[1..], t)
  }

  lemma {:induction false} AtTimeAppend(a: seq<Waypoint>, b: seq<Waypoint>, t: Instant)
    ensures AtTime(a + b, t) == AtTime(a, t) + AtTime(b, t)
  {
    if a == [] {
      assert a + b == b;
    } else {
      var c, head := a + b, if a[0].time == Some(t) then [a[0]] else [];
      assert c[0] == a[0] && c[1..] == a[1..] + b;
      calc {
        AtTime(c, t);
        head + AtTime(a[1..] + b, t);
        { AtTimeAppend(a[1..], b, t); }
        head + (AtTime(a[1..], t) + AtTime(b, t));
        (head + AtTime(a[1..], t)) + AtTime(b, t);
        AtTime(a, t) + AtTime(b, t);
      }
    }
  }

  lemma {:induction false} InsertSorted(x: Waypoint, s: seq<Waypoint>)
    requires x.time.Some? && Sorted(s)
    ensures Sorted(Insert(x, s))
  {
    if s == [] {
      assert Insert(x, s) == [x];
    } else if TimeOf(x) < TimeOf(s[0]) {
      forall j | 0 <= j < |s| ensures TimeOf(x) <= TimeOf(s[j]) {
        assert TimeOf(s[0]) <= TimeOf(s[j]);
      }
      SortedCons(x, s);
    } else {
      var tail := s[1..];
      SortedTail(s);
      InsertSorted(x, tail);
      InsertPermutes(x, tail);
      var rest := Insert(x, tail);
      forall j | 0 <= j < |rest| ensures TimeOf(s[0]) <= TimeOf(rest[j]) {
        assert rest[j] in multiset(rest);
        if rest[j] != x {
          assert rest[j] in multiset(tail);
          var k :| 0 <= k < |tail| && tail[k] == rest[j];
          assert tail[k] == s[k + 1];
        }
      }
      SortedCons(s[0], rest);
    }
  }

  /** A timed head not later than anything in a sorted sequence keeps it sorted. */
  lemma SortedCons(h: Waypoint, s: seq<Waypoint>)
    requires h.time.Some? && Sorted(s)
    requires forall j :: 0 <= j < |s| ==> TimeOf(h) <= TimeOf(s[j])
    ensures Sorted([h] + s)
  {
    var r := [h] + s;
    forall i | 0 <= i < |r| ensures r[i].time.Some? {
      if i > 0 {
        assert r[i] == s[i - 1];
      }
    }
    forall i, j | 0 <= i < j < |r| ensures r[i].time.value <= r[j].time.value {
      assert r[j] == s[j - 1];
      if i > 0 {
        assert r[i] == s[i - 1];
      }
    }
  }

  /** The tail of a non-empty sorted sequence is sorted. */
  lemma SortedTail(s: seq<Waypoint>)
    requires Sorted(s) && s != []
    ensures Sorted(s[1..])
  {
    var t := s[1..];
    forall i | 0 <= i < |t| ensures t[i].time.Some? {
      assert t[i] == s[i + 1];
    }
    forall i, j | 0 <= i < j < |t| ensures t[i].time.value <= t[j].time.value {
      assert t[i] == s[i + 1] && t[j] == s[j + 1];
    }
  }

  /** Stable insertion appends `x` to the run of its own timestamp and leaves the other runs alone. */
  lemma {:induction false} InsertAtTime(x: Waypoint, s: seq<Waypoint>, t: Instant)
    requires x.time.Some? && Sorted(s)
    ensures AtTime(Insert(x, s), t) == AtTime(s, t) + (if TimeOf(x) == t then [x] else [])
  {
    if s == [] {
      assert AtTime([x], t) == (if TimeOf(x) == t then [x] else []) + AtTime([], t);
    } else if TimeOf(x) < TimeOf(s[0]) {
      assert ([x] + s)[1..] == s;
      if TimeOf(x) == t {
        NoneAtTime(s, t);
      }
    } else {
      var rest := Insert(x, s[1..]);
      assert Insert(x, s) == [s[0]] + rest;
      assert ([s[0]] + rest)[1..] == rest;
      SortedTail(s);
      InsertAtTime(x, s[1..], t);
    }
  }

  lemma {:induction false} NoneAtTime(s: seq<Waypoint>, t: Instant)
    requires Sorted(s) && s != [] && t < TimeOf(s[0])
    ensures AtTime(s, t) == []
  {
    if |s| > 1 {
      assert s[1].time.value >= s[0].time.value;
      NoneAtTime(s[1..], t);
    }
  }

  /** The result of the sort is non-decreasing by timestamp. */
  lemma {:induction false} SortByTimeSorted(s: seq<Waypoint>)
    requires AllTimed(s)
    ensures Sorted(SortByTime(s))
  {
    if s != [] {
      SortByTimeSorted(s[..|s| - 1]);
      InsertSorted(s[|s| - 1], SortByTime(s[..|s| - 1]));
    }
  }

  /**
   * The sort is stable: for every instant, the waypoints stamped with it
   * come out in the order they went in.
   */
  lemma {:induction false} SortByTimeStable(s: seq<Waypoint>, t: Instant)
    requires AllTimed(s)
    ensures AtTime(SortByTime(s), t) == AtTime(s, t)
  {
    if s != [] {
      var n := |s| - 1;
      var prefix, x := s[..n], s[n];
      var tail := if TimeOf(x) == t then [x] else [];
      SortByTimeSorted(prefix);
      calc {
        AtTime(SortByTime(s), t);
        AtTime(Insert(x, SortByTime(prefix)), t);
        { InsertAtTime(x, SortByTime(prefix), t); }
        AtTime(SortByTime(prefix), t) + tail;
        { SortByTimeStable(prefix, t); }
        AtTime(prefix, t) + tail;
        { assert AtTime([x], t) == tail + AtTime([], t); }
        AtTime(prefix, t) + AtTime([x], t);
        { AtTimeAppend(prefix, [x], t); }
        AtTime(prefix + [x], t);
        { assert prefix + [x] == s; }
        AtTime(s, t);
      }
    }
  }

  /**
   * Where the insertion point is known (everything before `j` not later than
   * `x`, everything from `j` on later), stable insertion splices `x` in there.
   */
  lemma {:induction false} InsertSplice(x: Waypoint, s: seq<Waypoint>, j: nat)
    requires x.time.Some? && AllTimed(s) && j <= |s|
    requires forall k :: 0 <= k < j ==> TimeOf(s[k]) <= TimeOf(x)
    requires forall k :: j <= k < |s| ==> TimeOf(s[k]) > TimeOf(x)
    ensures Insert(x, s) == s[..j] + [x] + s[j..]
  {
    if s == [] {
      assert s[..j] + [x] + s[j..] == [x];
    } else if j == 0 {
      assert TimeOf(x) < TimeOf(s[0]);
      assert s[..0] + [x] + s[0..] == [x] + s;
    } else {
      var tail := s[1..];
      assert TimeOf(s[0]) <= TimeOf(x);
      forall k | 0 <= k < |tail| ensures tail[k].time.Some? {
        assert tail[k] == s[k + 1];
      }
      forall k | 0 <= k < j - 1 ensures TimeOf(tail[k]) <= TimeOf(x) {
        assert tail[k] == s[k + 1];
      }
      forall k | j - 1 <= k < |tail| ensures TimeOf(tail[k]) > TimeOf(x) {
        assert tail[k] == s[k + 1];
      }
      InsertSplice(x, tail, j - 1);
      SpliceCons(x, s, j);
    }
  }

  /** Inserting after the head: the splice into the tail, with the head in front. */
  lemma SpliceCons(x: Waypoint, s: seq<Waypoint>, j: nat)
    requires x.time.Some? && AllTimed(s) && 0 < j <= |s| && TimeOf(s[0]) <= TimeOf(x)
    requires AllTimed(s[1..]) && Insert(x, s[1..]) == s[1..][..j - 1] + [x] + s[1..][j - 1..]
    ensures Insert(x, s) == s[..j] + [x] + s[j..]
  {
    var tail := s[1..];
    assert Insert(x, s) == [s[0]] + Insert(x, tail);
    SliceCons(s, j);
    SpliceAssoc(s[0], tail[..j - 1], x, tail[j - 1..]);
  }

  /**
   * The state of the array after one insertion step, stated on sequences:
   * elements before the gap `j` are unchanged, those from `j` to `i - 1`
   * moved one place right, `x` (the old `before[i]`) fills the gap.
   */
  lemma ShiftedIsInsert(before: seq<Waypoint>, after: seq<Waypoint>, i: nat, j: nat)
    requires j <= i < |before| == |after| && AllTimed(before) && Sorted(before[..i])
    requires forall k :: 0 <= k < j ==> after[k] == before[k]
    requires forall k :: j < k <= i ==> after[k] == before[k - 1]
    requires forall k :: i < k < |after| ==> after[k] == before[k]
    requires after[j] == before[i]
    requires j == 0 || TimeOf(before[j - 1]) <= TimeOf(before[i])
    requires forall k :: j <= k < i ==> TimeOf(before[k]) > TimeOf(before[i])
    ensures after[..i + 1] == Insert(before[i], before[..i])
    ensures after[i + 1..] == before[i + 1..]
  {
    var x, sorted := before[i], before[..i];
    forall k | 0 <= k < j ensures TimeOf(sorted[k]) <= TimeOf(x) {
      assert TimeOf(sorted[k]) <= TimeOf(sorted[j - 1]);
    }
    forall k | j <= k < i ensures TimeOf(sorted[k]) > TimeOf(x) {
      assert sorted[k] == before[k];
    }
    InsertSplice(x, sorted, j);
    ShiftedIsSplice(before, after, i, j);
  }

  /** The shape of the array after one insertion step, as a splice of the old prefix. */
  lemma ShiftedIsSplice(before: seq<Waypoint>, after: seq<Waypoint>, i: nat, j: nat)
    requires j <= i < |before| == |after|
    requires forall k :: 0 <= k < j ==> after[k] == before[k]
    requires forall k :: j < k <= i ==> after[k] == before[k - 1]
    requires forall k :: i < k < |after| ==> after[k] == before[k]
    requires after[j] == before[i]
    ensures after[..i + 1] == before[..i][..j] + [before[i]] + before[..i][j..]
    ensures after[i + 1..] == before[i + 1..]
  {
    var spliced := before[..i][..j] + [before[i]] + before[..i][j..];
    forall k | 0 <= k <= i ensures after[..i + 1][k] == spliced[k] {
      if k < j {
        assert spliced[k] == before[k];
      } else if k > j {
        assert spliced[k] == before[..i][j..][k - j - 1] == before[k - 1];
      }
    }
  }

  /**
   * One step of the in-place sort: with `a[..i]` sorted, shift the later
   * elements of the prefix right and drop `a[i]` into the gap, which is
   * stable insertion of `a[i]` into the prefix.
   */
  method InsertStep(a: array<Waypoint>, i: nat)
    requires i < a.Length && AllTimed(a[..]) && Sorted(a[..i])
    modifies a
    ensures a[..i + 1] == Insert(old(a[i]), old(a[..i]))
    ensures a[i + 1..] == old(a[i + 1..])
  {
    ghost var before := a[..];
    var x := a[i];
    var j := i;
    while j > 0 && TimeOf(a[j - 1]) > TimeOf(x)
      invariant 0 <= j <= i
      invariant forall k :: 0 <= k < j ==> a[k] == before[k]
      invariant forall k :: j < k <= i ==> a[k] == before[k - 1]
      invariant forall k :: i < k < a.Length ==> a[k] == before[k]
      invariant forall k :: j <= k < i ==> TimeOf(before[k]) > TimeOf(x)
    {
      a[j] := a[j - 1];
      j := j - 1;
    }
    a[j] := x;
    ShiftedIsInsert(before, a[..], i, j);
  }

  /**
   * The in-place `sort_by` on the vector, as an insertion sort: the array
   * ends up holding `SortByTime` of what it held. The comparator unwraps
   * every timestamp, so all must be present.
   */
  method SortInPlace(a: array<Waypoint>)
    requires AllTimed(a[..])
    modifies a
    ensures a[..] == SortByTime(old(a[..]))
  {
    ghost var s := a[..];
    for i := 0 to a.Length
      invariant a[..i] == SortByTime(s[..i])
      invariant a[i..] == s[i..]
    {
      ghost var before := a[..];
      SortedPrefixStep(s, before, i);
      InsertStep(a, i);
      SortedPrefixGrows(s, before, a[..], i);
    }
    assert a[..] == a[..a.Length];
    assert s == s[..a.Length];
  }

  /** Before a step of the sort: the array is timed and its prefix sorted. */
  lemma SortedPrefixStep(s: seq<Waypoint>, before: seq<Waypoint>, i: nat)
    requires i < |s| == |before| && AllTimed(s)
    requires before[..i] == SortByTime(s[..i]) && before[i..] == s[i..]
    ensures AllTimed(before) && Sorted(before[..i]) && before[i] == s[i]
  {
    SortByTimeSorted(s[..i]);
    assert before == before[..i] + before[i..];
    assert before[i] == before[i..][0];
  }

  /** After a step of the sort: one more element of the prefix is sorted. */
  lemma SortedPrefixGrows(s: seq<Waypoint>, before: seq<Waypoint>, after: seq<Waypoint>, i: nat)
    requires i < |s| == |before| == |after| && AllTimed(s)
    requires before[..i] == SortByTime(s[..i]) && before[i..] == s[i..]
    requires after[..i + 1] == Insert(before[i], before[..i])
    requires after[i + 1..] == before[i + 1..]
    ensures after[..i + 1] == SortByTime(s[..i + 1]) && after[i + 1..] == s[i + 1..]
  {
    assert before[i] == before[i..][0] == s[i];
    assert s[..i + 1][..i] == s[..i];
    assert before[i + 1..] == before[i..][1..];
  }

  /** Why the index cannot be built: the panics of the `unwrap` calls. */
  datatype IndexError =
    | MissingTime   // a waypoint without a timestamp (src/main.rs:31-32, 36)
    | NoWaypoints   // `first()` or `last()` of an empty vector (src/main.rs:36-37)

  /** The sorted waypoint vector with the timestamps of its first and last elements. */
  datatype WaypointIndex = WaypointIndex(points: seq<Waypoint>, from: Instant, to: Instant)

  /**
   * Flatten, sort in place, read the first and last timestamps. An empty
   * document fails at `first()`; an untimed waypoint fails in the comparator
   * (or, when it is the only one, at `first().time`). Otherwise the points
   * are the stable sort of the flattening, a permutation of it, and `from`
   * and `to` are the least and greatest of its timestamps.
   */
  method BuildIndex(tracks: seq<Track>) returns (r: Result<WaypointIndex, IndexError>)
    ensures Flatten(tracks) == [] ==> r == Failure(NoWaypoints)
    ensures Flatten(tracks) != [] && !AllTimed(Flatten(tracks)) ==> r == Failure(MissingTime)
    ensures Flatten(tracks) != [] && AllTimed(Flatten(tracks)) ==>
              r.Success? && r.value.points == SortByTime(Flatten(tracks))
    ensures r.Success? ==>
              var flat := Flatten(tracks);
              Sorted(r.value.points) && multiset(r.value.points) == multiset(flat) &&
              (exists i :: 0 <= i < |flat| && flat[i].time == Some(r.value.from)) &&
              (exists i :: 0 <= i < |flat| && flat[i].time == Some(r.value.to)) &&
              forall i :: 0 <= i < |flat| ==> r.value.from <= flat[i].time.value <= r.value.to
  {
    var flat := Flatten(tracks);
    r := IndexPoints(flat);
  }

  /** The steps of `BuildIndex` after flattening: sort the collected vector and read its ends. */
  method IndexPoints(flat: seq<Waypoint>) returns (r: Result<WaypointIndex, IndexError>)
    ensures flat == [] ==> r == Failure(NoWaypoints)
    ensures flat != [] && !AllTimed(flat) ==> r == Failure(MissingTime)
    ensures flat != [] && AllTimed(flat) ==> r.Success? && r.value.points == SortByTime(flat)
    ensures r.Success? ==>
              Sorted(r.value.points) && multiset(r.value.points) == multiset(flat) &&
              (exists i :: 0 <= i < |flat| && flat[i].time == Some(r.value.from)) &&
              (exists i :: 0 <= i < |flat| && flat[i].time == Some(r.value.to)) &&
              forall i :: 0 <= i < |flat| ==> r.value.from <= flat[i].time.value <= r.value.to
  {
    if flat == [] {
      return Failure(NoWaypoints);
    }
    if !AllTimed(flat) {
      return Failure(MissingTime);
    }
    var waypoints := new Waypoint[|flat|](i requires 0 <= i < |flat| => flat[i]);
    assert waypoints[..] == flat;
    SortInPlace(waypoints);
    var points := waypoints[..];
    SortedEnds(flat);
    r := Success(WaypointIndex(points, TimeOf(points[0]), TimeOf(points[|points| - 1])));
  }

  /**
   * The first and last elements of the sort carry the least and the greatest
   * timestamp of the input, and each of them occurs in it.
   */
  lemma SortedEnds(flat: seq<Waypoint>)
    requires flat != [] && AllTimed(flat)
    ensures var points := SortByTime(flat);
            var from, to := TimeOf(points[0]), TimeOf(points[|points| - 1]);
            Sorted(points) && multiset(points) == multiset(flat) &&
            (exists i :: 0 <= i < |flat| && flat[i].time == Some(from)) &&
            (exists i :: 0 <= i < |flat| && flat[i].time == Some(to)) &&
            forall i :: 0 <= i < |flat| ==> from <= flat[i].time.value <= to
  {
    var points := SortByTime(flat);
    SortByTimeSorted(flat);
    SortByTimePermutes(flat);
    SortedBounds(points, flat);
    var i := Occurs(points, flat, 0);
    var j := Occurs(points, flat, |points| - 1);
  }

  /** The ends of a sorted permutation bound every timestamp of the original. */
  lemma SortedBounds(points: seq<Waypoint>, flat: seq<Waypoint>)
    requires points != [] && Sorted(points) && multiset(points) == multiset(flat)
    ensures forall i :: 0 <= i < |flat| ==>
              flat[i].time.Some? && TimeOf(points[0]) <= flat[i].time.value <= TimeOf(points[|points| - 1])
  {
    forall i | 0 <= i < |flat|
      ensures flat[i].time.Some? && TimeOf(points[0]) <= flat[i].time.value <= TimeOf(points[|points| - 1])
    {
      assert flat[i] in multiset(points);
      var k :| 0 <= k < |points| && points[k] == flat[i];
    }
  }

  /** Every element of a permutation occurs in the original. */
  lemma Occurs(points: seq<Waypoint>, flat: seq<Waypoint>, k: nat) returns (i: nat)
    requires k < |points| && multiset(points) == multiset(flat)
    ensures i < |flat| && flat[i] == points[k]
  {
    assert points[k] in multiset(flat);
    i :| i < |flat| && flat[i] == points[k];
  }
}
