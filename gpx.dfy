/**
 * The decoded track document: tracks of segments of waypoints, and the
 * flattening of that tree into one sequence of waypoints in document order
 * (src/main.rs:24-29).
 */
module Gpx {
  import opened Wrappers

  /** An absolute instant, as a count of a fixed time unit since the epoch. */
  type Instant = int

  /**
   * A waypoint. Only `time` takes part in the logic; the other fields are
   * payload carried through unchanged (their text form stands for whatever
   * the decoder produced).
   */
  datatype Waypoint = Waypoint(
    time: Option<Instant>,
    latitude: string,
    longitude: string,
    elevation: Option<string>,
    speed: Option<string>,
    name: Option<string>,
    comment: Option<string>,
    description: Option<string>)

  datatype Segment = Segment(points: seq<Waypoint>)

  datatype Track = Track(segments: seq<Segment>)

  /** Every waypoint of `s` carries a timestamp. */
  predicate AllTimed(s: seq<Waypoint>) {
    forall i :: 0 <= i < |s| ==> s[i].time.Some?
  }

  /** Fully timed and non-decreasing by timestamp: the index invariant. */
  predicate Sorted(s: seq<Waypoint>) {
    AllTimed(s) && forall i, j :: 0 <= i < j < |s| ==> s[i].time.value <= s[j].time.value
  }

  /** The points of a sequence of segments, segment after segment. */
  function FlattenSegments(segments: seq<Segment>): (r: seq<Waypoint>)
    ensures |r| == SegmentsSize(segments)
  {
    if segments == [] then [] else segments[0].points + FlattenSegments(segments[1..])
  }

  /** The points of all tracks, track after track (the `flat_map` / `flatten` chain). */
  function Flatten(tracks: seq<Track>): (r: seq<Waypoint>)
    ensures |r| == TracksSize(tracks)
  {
    if tracks == [] then [] else FlattenSegments(tracks[0].segments) + Flatten(tracks[1..])
  }

  /** Total number of points held by a sequence of segments. */
  function SegmentsSize(segments: seq<Segment>): nat {
    if segments == [] then 0 else |segments[0].points| + SegmentsSize(segments[1..])
  }

  /** Total number of points held by a sequence of tracks. */
  function TracksSize(tracks: seq<Track>): nat {
    if tracks == [] then 0 else SegmentsSize(tracks[0].segments) + TracksSize(tracks[1..])
  }

  lemma {:induction false} FlattenSegmentsMembers(segments: seq<Segment>, w: Waypoint)
    ensures |FlattenSegments(segments)| == SegmentsSize(segments)
    ensures w in FlattenSegments(segments) <==> exists g :: g in segments && w in g.points
  {
    if segments != [] {
      FlattenSegmentsMembers(segments[1..], w);
      if w in FlattenSegments(segments[1..]) {
        var g :| g in segments[1..] && w in g.points;
        assert g in segments;
      }
      if exists g :: g in segments && w in g.points {
        var g :| g in segments && w in g.points;
        if g != segments[0] {
          assert g in segments[1..];
        }
      }
    }
  }

  /**
   * The flattening holds exactly the points of the tree: as many as all
   * segments of all tracks together, and a waypoint is in it if and only if
   * it is a point of some segment of some track.
   */
  lemma {:induction false} FlattenMembers(tracks: seq<Track>, w: Waypoint)
    ensures |Flatten(tracks)| == TracksSize(tracks)
    ensures w in Flatten(tracks) <==>
              exists t, g :: t in tracks && g in t.segments && w in g.points
  {
    if tracks != [] {
      FlattenMembers(tracks[1..], w);
      FlattenSegmentsMembers(tracks[0].segments, w);
      if w in Flatten(tracks[1..]) {
        var t, g :| t in tracks[1..] && g in t.segments && w in g.points;
        assert t in tracks;
      }
      if w in FlattenSegments(tracks[0].segments) {
        var g :| g in tracks[0].segments && w in g.points;
        assert tracks[0] in tracks;
      }
      if exists t, g :: t in tracks && g in t.segments && w in g.points {
        var t, g :| t in tracks && g in t.segments && w in g.points;
        if t != tracks[0] {
          assert t in tracks[1..];
        }
      }
    }
  }

  /** Flattening keeps document order: it distributes over concatenation of track lists. */
  lemma {:induction false} FlattenAppend(a: seq<Track>, b: seq<Track>)
    ensures Flatten(a + b) == Flatten(a) + Flatten(b)
  {
    if a != [] {
      assert (a + b)[1..] == a[1..] + b;
      FlattenAppend(a[1..], b);
    } else {
      assert a + b == b;
    }
  }
}
