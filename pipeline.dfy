/**
 * The full run, `process_csv`: group the detections, disambiguate frame by frame in ascending
 * frame order, sort by (Frame, Class), then interpolate and clamp every class. The command-line
 * processor and the editor add-on's `CSVProcessor` run the same steps; only the former also
 * counts the discarded duplicates.
 */
module Pipeline {
  import opened Common
  import opened Grouping
  import opened TrackNames
  import opened Disambiguation
  import StableSort
  import Trajectory

  /** The rows `process_csv` has emitted when the frame loop ends. */
  function Resolve(rows: seq<Row>): seq<Row> {
    Resolved(GroupRows(rows), SortedFrames(FrameOrder(rows)))
  }

  /** The `duplicate_count` the command-line processor reports. */
  function DuplicateCount(rows: seq<Row>): nat {
    Duplicates(GroupRows(rows), SortedFrames(FrameOrder(rows)))
  }

  /** The disambiguated rows are strictly sorted by (Frame, Class). */
  lemma ResolveSorted(rows: seq<Row>)
    ensures Trajectory.StrictlyByFrameClass(Resolve(rows))
  {
    ResolvedSorted(GroupRows(rows), SortedFrames(FrameOrder(rows)));
  }

  /** The rows `process_csv` writes for detections `rows` and jump threshold `threshold`. */
  function Output(rows: seq<Row>, threshold: real): seq<Row> {
    ResolveSorted(rows);
    Trajectory.Interpolated(Resolve(rows), threshold)
  }

  /**
   * `process_csv` without the file reading and writing: returns the rows it writes and the
   * duplicate count it prints.
   */
  method ProcessCsv(rows: seq<Row>, threshold: real) returns (output: seq<Row>, duplicateCount: nat)
    ensures output == Output(rows, threshold)
    ensures duplicateCount == DuplicateCount(rows)
  {
    var grouped, order := Group(rows);
    var frames := SortedFrames(order);
    var processed;
    processed, duplicateCount := Disambiguate(grouped, frames);
    ResolveSorted(rows);
    StableSort.SortedUniqueIsStrict(processed, FrameClassKey);
    StableSort.SortSortedIsIdentity(processed, FrameClassKey);
    processed := StableSort.Sort(processed, FrameClassKey);
    output := Trajectory.InterpolateAndThreshold(processed, threshold);
  }

  /**
   * After disambiguation there is a row for class `c` at frame `f` exactly when `c` is a body
   * or head class of mice 0..4 and some detection has that frame and class: rows of any other
   * class are dropped.
   */
  lemma ResolveKeys(rows: seq<Row>, f: int, c: int)
    ensures (exists r :: r in Resolve(rows) && r.frame == f && r.cls == c) <==>
              0 <= c < Classes && Detected(rows, f, c)
  {
    var g, frames := GroupRows(rows), SortedFrames(FrameOrder(rows));
    ResolvedComplete(g, frames, f, c);
    FrameOrderMembers(rows);
    GroupRowsBuckets(rows, f, c);
    BucketNonEmpty(rows, f, c);
  }

  /**
   * Every disambiguated row carries its class's track name and the point the selection rule
   * picks from the detections of its frame and class, with the partner part's detections
   * (body `2m` with head `2m + 1`) as reference.
   */
  lemma ResolveRule(rows: seq<Row>)
    ensures forall r :: r in Resolve(rows) ==>
              r.id == TrackName(r.cls) &&
              Choose(Bucket(rows, r.frame, r.cls), Bucket(rows, r.frame, Partner(r.cls))) == Some(PointOf(r))
  {
    var g, frames := GroupRows(rows), SortedFrames(FrameOrder(rows));
    ResolvedWellChosen(g, frames);
    forall r | r in Resolve(rows)
      ensures Choose(Bucket(rows, r.frame, r.cls), Bucket(rows, r.frame, Partner(r.cls))) == Some(PointOf(r))
    {
      GroupRowsBuckets(rows, r.frame, r.cls);
      GroupRowsBuckets(rows, r.frame, Partner(r.cls));
    }
  }

  /** Every dropped or kept detection of classes 0..9 is accounted for by `duplicate_count`. */
  lemma DuplicateCountConservation(rows: seq<Row>)
    ensures DuplicateCount(rows) + |Resolve(rows)| ==
              Candidates(GroupRows(rows), SortedFrames(FrameOrder(rows)))
  {
    DuplicateConservation(GroupRows(rows), SortedFrames(FrameOrder(rows)));
  }

  lemma ResolveIndexKeys(rows: seq<Row>, k: nat)
    requires k < |Resolve(rows)|
    ensures 0 <= Resolve(rows)[k].cls < Classes && Detected(rows, Resolve(rows)[k].frame, Resolve(rows)[k].cls)
  {
    var r := Resolve(rows)[k];
    ResolveKeys(rows, r.frame, r.cls);
  }

  /** The disambiguated rows of class `c` span frame `f` exactly when the detections do, for classes 0..9. */
  lemma ResolveSpans(rows: seq<Row>, f: int, c: int)
    ensures Trajectory.Spans(Resolve(rows), f, c) <==> 0 <= c < Classes && Trajectory.Spans(rows, f, c)
  {
    if Trajectory.Spans(Resolve(rows), f, c) {
      ResolveSpansDetected(rows, f, c);
    }
    if 0 <= c < Classes && Trajectory.Spans(rows, f, c) {
      DetectedSpansResolve(rows, f, c);
    }
  }

  lemma ResolveSpansDetected(rows: seq<Row>, f: int, c: int)
    requires Trajectory.Spans(Resolve(rows), f, c)
    ensures 0 <= c < Classes && Trajectory.Spans(rows, f, c)
  {
    var p := Resolve(rows);
    var i, j :| 0 <= i < |p| && 0 <= j < |p| &&
       p[i].cls == c && p[j].cls == c && p[i].frame <= f <= p[j].frame;
    ResolveIndexKeys(rows, i);
    ResolveIndexKeys(rows, j);
  }

  lemma DetectedSpansResolve(rows: seq<Row>, f: int, c: int)
    requires 0 <= c < Classes && Trajectory.Spans(rows, f, c)
    ensures Trajectory.Spans(Resolve(rows), f, c)
  {
    var p := Resolve(rows);
    var i, j :| 0 <= i < |rows| && 0 <= j < |rows| &&
       rows[i].cls == c && rows[j].cls == c && rows[i].frame <= f <= rows[j].frame;
    ResolveKeys(rows, rows[i].frame, c);
    ResolveKeys(rows, rows[j].frame, c);
    var a :| a in p && a.frame == rows[i].frame && a.cls == c;
    var b :| b in p && b.frame == rows[j].frame && b.cls == c;
    var ia :| 0 <= ia < |p| && p[ia] == a;
    var ib :| 0 <= ib < |p| && p[ib] == b;
    assert p[ia].cls == c && p[ib].cls == c && p[ia].frame <= f <= p[ib].frame;
  }

  /**
   * The output is strictly sorted by (Frame, Class) — exactly one row per (frame, class) — and
   * it has a row for class `c` at frame `f` exactly when `c` is one of the classes 0..9 and
   * `f` lies between two detections of class `c`: every frame from the class's first detection
   * to its last, and none outside.
   */
  lemma OutputCoverage(rows: seq<Row>, threshold: real, f: int, c: int)
    ensures StableSort.StrictlySortedBy(Output(rows, threshold), FrameClassKey)
    ensures (exists r :: r in Output(rows, threshold) && r.frame == f && r.cls == c) <==>
              0 <= c < Classes &&
              exists i, j :: 0 <= i < |rows| && 0 <= j < |rows| &&
                rows[i].cls == c && rows[j].cls == c && rows[i].frame <= f <= rows[j].frame
  {
    var p := Resolve(rows);
    ResolveSorted(rows);
    Trajectory.InterpolatedSorted(p, threshold);
    Trajectory.InterpolatedCoverage(p, threshold, f, c);
    ResolveSpans(rows, f, c);
  }
}
