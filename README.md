# read-gpx in Dafny

read-gpx is a command-line tool. It loads a GPX track file and gathers every
waypoint into one vector sorted by timestamp. It then answers, for each time
of day typed at its prompt, with the most recent waypoint recorded at or
before that time. This project models the logic of `src/main.rs` that does
that, and proves what it does:

- `Gpx` (gpx.dfy): the decoded document as tracks of segments of waypoints.
  A waypoint has an optional integer timestamp plus payload fields that pass
  through untouched. `Flatten` is the iterator chain that lists the points
  in document order.
- `Index` (index.dfy): building the index. The flattened points are copied
  into an array and sorted in place by timestamp with a stable insertion
  sort (`SortInPlace`). That sort is proved equal to a functional stable
  insertion sort, `SortByTime`. `SortByTime` is then proved to be sorted,
  a permutation of its input and stable. `BuildIndex` turns the two
  `unwrap` panics into error results: a missing timestamp and an empty
  document.
- `Query` (query.dfy): `find_most_recent_waypoint`, written as the same
  `for` loop with its `continue` and `break`. It is proved against the
  specification function `MostRecent`. Properties of that function come
  next: untimed points are skipped; the answer is characterised on a sorted
  sequence; the bound is inclusive.
- `TimeInput` (time_input.dfy): `parse_time`. This means `str::trim` (with
  Unicode `White_Space`), `split(':')` and `u8::from_str`, which accepts a
  leading `+` and leading zeros. A field that fails to parse is a `Failure`
  naming that field, in place of the `expect` panic.
- `Normalize` (normalize.dfy): the `str::replace` that deletes the empty
  copyright/author fragment from the document text before decoding.
- `Wrappers` and `Seqs`: `Option`/`Result`, and a few sequence facts stated
  once for any element type.

`find_most_recent_waypoint` returns a reference into the slice. The model
returns the position of that waypoint in the sequence.

The normaliser is not idempotent: deleting one occurrence can join the text
on either side into a new occurrence. `Normalize.NotIdempotent` exhibits such
a document.

## Model

| member | source | states |
|---|---|---|
| Query.FindMostRecentWaypoint | src/main.rs:106-127 | the loop, with its `continue` on an untimed point and `break` on the first later one, returns exactly `MostRecent` |
| Query.FirstLate | src/main.rs:119-121 | the scan stops at the first point whose time is strictly after the request: nothing before it is later, and it is later |
| Query.LastTimedBefore | src/main.rs:113-123 | the candidate after scanning a prefix is its last timed point; every point after it in the prefix is untimed; none means the prefix is untimed |
| Query.IsLate | src/main.rs:119 | only a timed point can be late, and a point exactly at the request is not |
| Query.MostRecent | src/main.rs:110-126 | the answer comes before the stop, is timed and not after the request (inclusive bound); the points between it and the stop are untimed; there is no answer exactly when every point before the stop is untimed |
| Query.FirstTimed | src/main.rs:113-117 | position of the first timed point: every point before it is untimed; none means all are untimed |
| Query.MostRecentNone | src/main.rs:110-126 | there is no answer exactly when no point is timed or the first timed point is already after the request |
| Query.FirstLateInsertUntimed | src/main.rs:113-117 | inserting an untimed point never moves the stop except by shifting it |
| Query.LastTimedInsertUntimed | src/main.rs:113-117 | inserting an untimed point leaves the candidate of every prefix the same point, at its shifted position |
| Query.UntimedSkipped | src/main.rs:113-117 | an untimed point inserted anywhere is never the answer and never stops the scan; the answer is the same point as before |
| Query.SortedMostRecent | src/main.rs:112-126 | on a sorted sequence, the answer and every point before it are at or before the request, and every point after it is later; no answer exactly when the sequence is empty or its first point is later; a request at or after the last point returns the last point |
| Query.SortedExactMatch | src/main.rs:119-123 | on a sorted sequence holding a point exactly at the request, the answer is at the request and is the last point at that instant |
| Gpx.FlattenSegments | src/main.rs:27-28 | a track's points number the sum of its segment sizes |
| Gpx.Flatten | src/main.rs:24-29 | the flattening has as many points as the whole tree |
| Gpx.FlattenSegmentsMembers | src/main.rs:27-28 | the points of a track's segments number the sum of the segment sizes, and a point is among them exactly when it is in one of the segments |
| Gpx.FlattenMembers | src/main.rs:24-29 | the flattening has as many points as the whole tree, and a point is in it exactly when it is a point of some segment of some track |
| Gpx.FlattenAppend | src/main.rs:24-29 | flattening keeps document order: the points of two track lists come out one list after the other |
| Index.Insert | src/main.rs:30-35 | inserting one timed point into a timed sequence gives a timed sequence one longer |
| Index.SortByTime | src/main.rs:30-35 | the sort of a timed sequence is timed and of the same length |
| Index.InsertPermutes | src/main.rs:30-35 | insertion adds the point and loses nothing (multisets) |
| Index.SortByTimePermutes | src/main.rs:24-35 | the sorted sequence is a permutation of the input |
| Index.InsertSorted | src/main.rs:30-35 | inserting into a sorted sequence keeps it sorted |
| Index.SortByTimeSorted | src/main.rs:30-35 | the sort is non-decreasing by timestamp |
| Index.AtTimeAppend | src/main.rs:30-35 | the points stamped with one instant are found list by list across a concatenation |
| Index.InsertAtTime | src/main.rs:30-35 | stable insertion puts the new point after the points of its own instant and leaves other instants unchanged |
| Index.NoneAtTime | src/main.rs:30-35 | a sorted sequence holds no point of an instant before its first |
| Index.SortByTimeStable | src/main.rs:30-35 | the sort is stable: for every instant, its points come out in the order they went in |
| Index.InsertSplice | src/main.rs:30-35 | once the insertion point is known (nothing later before it, everything later after it), stable insertion splices the point in there |
| Index.ShiftedIsInsert | src/main.rs:30-35 | the array after one shifting pass is the stable insertion of the moved point into the sorted prefix, and the rest is unchanged |
| Index.InsertStep | src/main.rs:30-35 | one in-place step turns the array prefix into `Insert` of the next point, leaving the rest alone |
| Index.SortInPlace | src/main.rs:30-35 | sorting the array in place leaves `SortByTime` of its old contents; every timestamp must be present, because the comparator unwraps them |
| Index.BuildIndex | src/main.rs:24-37 | an empty document is `NoWaypoints`, one with an untimed point is `MissingTime`; otherwise the points are the stable sort of the flattening, sorted, a permutation of it, and `from` and `to` are times in it that bound every time in it |
| Index.IndexPoints | src/main.rs:30-37 | the same outcome for the already flattened vector: error cases, stable sort, permutation, and `from`/`to` occurring in it and bounding it |
| Index.SortedEnds | src/main.rs:36-37 | the first and last points of the sort carry timestamps that occur in the input and bound every timestamp in it |
| TimeInput.IsWhitespace | src/main.rs:130 | ASCII space, tab, newline and carriage return are whitespace; digits, `+` and `:` are not |
| TimeInput.TrimStart | src/main.rs:130 | dropping leading whitespace leaves a suffix that does not start with whitespace, after only whitespace |
| TimeInput.TrimEnd | src/main.rs:130 | dropping trailing whitespace leaves a prefix that does not end with whitespace, before only whitespace |
| TimeInput.Trim | src/main.rs:130 | the trimmed line neither starts nor ends with whitespace and is no longer than the line |
| TimeInput.TrimOf | src/main.rs:130 | trimming removes exactly the surrounding whitespace of a trimmed text |
| TimeInput.TrimEndAppend | src/main.rs:130 | trailing whitespace after a non-blank text only trims the tail |
| TimeInput.Split | src/main.rs:130 | `split(':')` yields at least one piece and no piece holds a colon |
| TimeInput.JoinSplit | src/main.rs:130 | joining the pieces with colons gives the text back |
| TimeInput.SplitJoin | src/main.rs:130 | splitting colon-free pieces joined by colons gives the pieces back |
| TimeInput.ParseU8 | src/main.rs:131-139 | a parsed field is at most 255 |
| TimeInput.Decimal | src/main.rs:129-142 | the shortest decimal rendering is a non-empty digit run denoting the number |
| TimeInput.ParseU8Padded | src/main.rs:131-139 | every `u8`, written in decimal with or without a leading `+` and leading zeros, parses back to itself |
| TimeInput.ParseU8Accepted | src/main.rs:131-139 | every field that parses is an optional `+`, leading zeros and the shortest decimal form of its value |
| TimeInput.DigitsCanonical | src/main.rs:131-139 | a digit run is leading zeros followed by the shortest decimal form of its value |
| TimeInput.FieldAt | src/main.rs:133-139 | a present piece that parses gives at most 255; a missing piece reads as 0 |
| TimeInput.ParseFields | src/main.rs:131-141 | a success holds three values of at most 255 |
| TimeInput.ParseTime | src/main.rs:129-142 | the parsed hour, minute and second are each at most 255 |
| TimeInput.ParseFieldsOutcome | src/main.rs:131-141 | the parse fails exactly when one of the first three pieces is present and not a `u8`; the failure names the first such piece; on success each value is the parse of its piece, or 0 when the piece is missing |
| TimeInput.ParseFieldsIgnoresExtra | src/main.rs:131-141 | pieces after the third are never looked at |
| TimeInput.ParseTimeBlank | src/main.rs:130-133 | an empty or blank line is an hour error, never midnight |
| TimeInput.ParseTimeRoundTrip | src/main.rs:129-142 | "h:m:s" for any three `u8`s, with any whitespace around it, parses to (h, m, s) |
| TimeInput.FieldTrimmed | src/main.rs:131-139 | a field written with an optional `+`, leading zeros and decimal digits is non-empty, has no surrounding whitespace and no colon |
| TimeInput.ParseFieldsOfThree | src/main.rs:131-141 | three pieces that each parse give exactly those three values |
| TimeInput.ParseTimeFieldsRoundTrip | src/main.rs:129-142 | "h:m:s" with each field padded by any leading zeros and an optional `+`, and any whitespace around the line, parses to (h, m, s) |
| TimeInput.ParseTimeExample | src/main.rs:129-142 | the line "14:32:07" followed by a newline, as read from stdin, parses to (14, 32, 7) |
| TimeInput.ParseTimeDefaults | src/main.rs:134-139 | "h" parses to (h, 0, 0) and "h:m" to (h, m, 0) |
| TimeInput.ParseTimeExtraFields | src/main.rs:137-141 | whatever follows a third colon is ignored |
| Normalize.DeleteAll | src/main.rs:149-152 | the normalised text is never longer than the original |
| Normalize.NormalizeDocument | src/main.rs:149-152 | deleting the copyright fragment never lengthens the document and keeps the remaining characters in order |
| Normalize.DeleteAllAbsent | src/main.rs:149-152 | with no occurrence of the fragment the text is unchanged |
| Normalize.DeleteAllFirstMatch | src/main.rs:149-152 | the leftmost occurrence is the first one removed: the text before it is kept and the scan goes on after it |
| Normalize.DeleteAllSubsequence | src/main.rs:149-152 | every character not deleted is kept, in order |
| Normalize.NotIdempotent | src/main.rs:149-152 | a document exists whose normalisation still holds the fragment, so normalising twice differs from normalising once |

## Left out

- Argument handling, file reading, stdin/stdout and the endless prompt loop (src/main.rs:14-22, 39-103). These are I/O; the model starts from the decoded tracks and from one input line.
- GPX/XML decoding by `gpx::read` (src/main.rs:153-154). It is library behaviour, so the model starts from the decoded tree. src/model.rs is not part of this model: src/main.rs:1 does not compile it in.
- Time-zone lookup and conversion, and `replace_hour`/`replace_minute`/`replace_second` (src/main.rs:38, 63-67). These are library calls that depend on host state. An hour above 23, or a minute or second above 59, fails there and ends `main` through `?`. The model stops at the parsed `(hour, minute, second)`.
- src/formatter.rs and all formatted output, including coordinates, `elevation.round() as u64` and speed (src/main.rs:40-52, 69-101). This is text formatting and floating point.
- Timestamps are integers counting from the epoch; the `OffsetDateTime` conversion is not modelled.
- Waypoint payload fields are opaque text; the decoder's floating-point values are not interpreted.
- Index.SortInPlace: Rust's `sort_by` is a library algorithm, so an insertion sort stands in for it. Any stable sort gives the same result, so what is proved about the outcome carries over; the comparison count and memory use do not.
- Index.BuildIndex: the model does not say which `unwrap` panics first. An untimed waypoint panics in the comparator, or in `first().time` when it is the only one; both are `MissingTime`.
- TimeInput.ParseTime: the `ParseIntError` kind carried in the panic message is not kept, only which field failed.
