/**
 * Partial Reprocessor, `reprocess_track`: redoes one class from a start frame on. Only
 * detections at or after the start frame and of the selected class or its partner part are
 * grouped; every frame with a selected-class detection emits one row (no interpolation); the
 * rows are clamped except inside the grace window `[start, start + fps)`; and the result
 * replaces the selected class's rows from the start frame on in the previously written output.
 */
module Reprocess {
  import opened Common
  import opened Grouping
  import opened TrackNames
  import opened Disambiguation
  import opened JumpClamp
  import StableSort

  /** `frame >= start_frame and class_id in (selected_class_id, paired_class_id)` */
  predicate InScope(r: Row, selected: int, start: int) {
    r.frame >= start && (r.cls == selected || r.cls == Partner(selected))
  }

  /** The detections the reprocess groups, in input order. */
  function Scoped(rows: seq<Row>, selected: int, start: int): seq<Row> {
    if rows == [] then []
    else
      var r := rows[|rows| - 1];
      Scoped(rows[..|rows| - 1], selected, start) + (if InScope(r, selected, start) then [r] else [])
  }

  lemma ScopedStep(rows: seq<Row>, selected: int, start: int, i: nat)
    requires i < |rows|
    ensures Scoped(rows[..i + 1], selected, start) ==
              Scoped(rows[..i], selected, start) + (if InScope(rows[i], selected, start) then [rows[i]] else [])
  {
    assert rows[..i + 1][..i] == rows[..i];
  }

  lemma GroupRowsSnoc(s: seq<Row>, r: Row)
    ensures GroupRows(s + [r]) == Append(GroupRows(s), r.frame, r.cls, PointOf(r))
    ensures FrameOrder(s + [r]) == if r.frame in FrameOrder(s) then FrameOrder(s) else FrameOrder(s) + [r.frame]
  {
    assert (s + [r])[..|s|] == s;
  }

  /** The grouping loop of `reprocess_track`, with its filter. */
  method GroupScoped(rows: seq<Row>, selected: int, paired: int, start: int) returns (g: Grouped, order: seq<int>)
    requires paired == Partner(selected)
    ensures g == GroupRows(Scoped(rows, selected, start))
    ensures order == FrameOrder(Scoped(rows, selected, start))
  {
    g, order := map[], [];
    ghost var scoped: seq<Row> := [];
    var i := 0;
    while i < |rows|
      invariant 0 <= i <= |rows|
      invariant scoped == Scoped(rows[..i], selected, start)
      invariant g == GroupRows(scoped) && order == FrameOrder(scoped)
    {
      var r := rows[i];
      ScopedStep(rows, selected, start, i);
      if r.frame >= start && (r.cls == selected || r.cls == paired) {
        GroupRowsSnoc(scoped, r);
        GroupRowsKeys(scoped);
        if r.frame !in g {
          order := order + [r.frame];
        }
        var inner := if r.frame in g then g[r.frame] else map[];
        var points := if r.cls in inner then inner[r.cls] else [];
        g := g[r.frame := inner[r.cls := points + [PointOf(r)]]];
        scoped := scoped + [r];
      } else {
        assert !InScope(r, selected, start);
      }
      i := i + 1;
    }
    assert rows[..i] == rows;
  }

  /** A scoped bucket holds the detections of its frame and class when both are in scope, else none. */
  lemma {:induction false} ScopedBucket(rows: seq<Row>, selected: int, start: int, f: int, c: int)
    ensures Bucket(Scoped(rows, selected, start), f, c) ==
              if f >= start && (c == selected || c == Partner(selected)) then Bucket(rows, f, c) else []
  {
    if rows != [] {
      var p := rows[..|rows| - 1];
      ScopedBucket(p, selected, start, f, c);
      var s := Scoped(p, selected, start);
      var r := rows[|rows| - 1];
      var hit := if r.frame == f && r.cls == c then [PointOf(r)] else [];
      assert Bucket(rows, f, c) == Bucket(p, f, c) + hit;
      if InScope(r, selected, start) {
        assert Scoped(rows, selected, start) == s + [r];
        assert (s + [r])[..|s|] == s;
        assert Bucket(s + [r], f, c) == Bucket(s, f, c) + hit;
      } else {
        assert Scoped(rows, selected, start) == s;
      }
    }
  }

  /**
   * The reprocess selection (lines 349-355): the first selected point, unless there are several
   * and the paired part has a point, in which case the one nearest the paired part's first point.
   */
  function Select(selectedPoints: seq<Point>, pairedPoints: seq<Point>): Option<Point> {
    if selectedPoints == [] then None
    else if |selectedPoints| > 1 && pairedPoints != [] then Some(selectedPoints[Nearest(selectedPoints, pairedPoints[0])])
    else Some(selectedPoints[0])
  }

  /** The reprocess selection picks what the full run's selection picks. */
  lemma SelectAgreesWithFullRun(selectedPoints: seq<Point>, pairedPoints: seq<Point>)
    ensures Select(selectedPoints, pairedPoints) == Choose(selectedPoints, pairedPoints)
  {
  }

  /** The row a frame emits for the selected class, if it has a selected point. */
  function Pick(g: Grouped, f: int, selected: int): seq<Row> {
    Emitted(f, selected, Select(Get(g, f, selected), Get(g, f, Partner(selected))))
  }

  /** `processed_data` after visiting the given frames in order. */
  function Selected(g: Grouped, frames: seq<int>, selected: int): seq<Row> {
    if frames == [] then []
    else Selected(g, frames[..|frames| - 1], selected) + Pick(g, frames[|frames| - 1], selected)
  }

  /** The frame loop of `reprocess_track`. */
  method SelectRows(g: Grouped, frames: seq<int>, selected: int, paired: int) returns (processed: seq<Row>)
    requires paired == Partner(selected)
    ensures processed == Selected(g, frames, selected)
  {
    processed := [];
    var i := 0;
    while i < |frames|
      invariant 0 <= i <= |frames|
      invariant processed == Selected(g, frames[..i], selected)
    {
      var frame := frames[i];
      assert frames[..i + 1][..i] == frames[..i];
      var selectedPoints := Get(g, frame, selected);
      var pairedPoints := Get(g, frame, paired);
      if selectedPoints != [] {
        var point;
        if |selectedPoints| > 1 && pairedPoints != [] {
          point := selectedPoints[Nearest(selectedPoints, pairedPoints[0])];
        } else {
          point := selectedPoints[0];
        }
        processed := processed + [Row(frame, TrackName(selected), selected, point.x, point.y)];
      }
      i := i + 1;
    }
    assert frames[..i] == frames;
  }

  /** Rows of the selected class at visited frames, each with the point `Select` picks. */
  lemma {:induction false} SelectedRows(g: Grouped, frames: seq<int>, selected: int)
    ensures forall r :: r in Selected(g, frames, selected) ==>
              r.frame in frames && r.cls == selected && r.id == TrackName(selected) &&
              Select(Get(g, r.frame, selected), Get(g, r.frame, Partner(selected))) == Some(PointOf(r))
  {
    if frames != [] {
      SelectedRows(g, frames[..|frames| - 1], selected);
      assert forall f :: f in frames[..|frames| - 1] ==> f in frames;
    }
  }

  /** A visited frame emits a row exactly when its selected bucket is not empty. */
  lemma {:induction false} SelectedComplete(g: Grouped, frames: seq<int>, selected: int, f: int)
    ensures (exists r :: r in Selected(g, frames, selected) && r.frame == f) <==>
              f in frames && Get(g, f, selected) != []
  {
    if frames != [] {
      var p, last := frames[..|frames| - 1], frames[|frames| - 1];
      SelectedComplete(g, p, selected, f);
      SelectedRows(g, p, selected);
      assert forall x :: x in frames <==> x in p || x == last;
      var a, b := Selected(g, p, selected), Pick(g, last, selected);
      assert Selected(g, frames, selected) == a + b;
      if f == last && Get(g, f, selected) != [] {
        assert b[0] in a + b;
      }
    }
  }

  predicate FramesIncrease(rows: seq<Row>) {
    forall i, j :: 0 <= i < j < |rows| ==> rows[i].frame < rows[j].frame
  }

  /** Over increasing frames the emitted rows have increasing frames. */
  lemma {:induction false} SelectedIncrease(g: Grouped, frames: seq<int>, selected: int)
    requires StrictlyIncreasing(frames)
    ensures FramesIncrease(Selected(g, frames, selected))
  {
    if frames != [] {
      var p, last := frames[..|frames| - 1], frames[|frames| - 1];
      SelectedIncrease(g, p, selected);
      SelectedRows(g, p, selected);
      var a, b := Selected(g, p, selected), Pick(g, last, selected);
      var s := a + b;
      forall i, j | 0 <= i < j < |s| ensures s[i].frame < s[j].frame {
        if j >= |a| {
          assert s[i] == a[i] && s[i] in a;
          var k :| 0 <= k < |p| && p[k] == s[i].frame;
          assert frames[k] == s[i].frame;
        } else {
          assert s[i] == a[i] && s[j] == a[j];
        }
      }
    }
  }

  /** The rows the reprocess selects, before the clamp. */
  function Picked(rows: seq<Row>, selected: int, start: int): seq<Row> {
    var s := Scoped(rows, selected, start);
    Selected(GroupRows(s), SortedFrames(FrameOrder(s)), selected)
  }

  /** Selection reads only what is in scope and emits the selected class only, one row per frame. */
  lemma PickedRows(rows: seq<Row>, selected: int, start: int)
    ensures FramesIncrease(Picked(rows, selected, start))
    ensures StableSort.SortedBy(Picked(rows, selected, start), FrameKey)
    ensures forall r :: r in Picked(rows, selected, start) ==>
              r.cls == selected && r.id == TrackName(selected) && r.frame >= start &&
              Select(Bucket(rows, r.frame, selected), Bucket(rows, r.frame, Partner(selected))) == Some(PointOf(r))
  {
    var s := Scoped(rows, selected, start);
    var g, frames := GroupRows(s), SortedFrames(FrameOrder(s));
    SelectedIncrease(g, frames, selected);
    SelectedRows(g, frames, selected);
    forall r | r in Picked(rows, selected, start)
      ensures r.frame >= start &&
              Select(Bucket(rows, r.frame, selected), Bucket(rows, r.frame, Partner(selected))) == Some(PointOf(r))
    {
      GroupRowsBuckets(s, r.frame, selected);
      GroupRowsBuckets(s, r.frame, Partner(selected));
      ScopedBucket(rows, selected, start, r.frame, selected);
      ScopedBucket(rows, selected, start, r.frame, Partner(selected));
    }
  }

  /** A row is emitted for frame `f` exactly when `f` is at or after the start and has a selected detection. */
  lemma PickedFrames(rows: seq<Row>, selected: int, start: int, f: int)
    ensures (exists r :: r in Picked(rows, selected, start) && r.frame == f) <==>
              f >= start && Detected(rows, f, selected)
  {
    var s := Scoped(rows, selected, start);
    var g, frames := GroupRows(s), SortedFrames(FrameOrder(s));
    SelectedComplete(g, frames, selected, f);
    FrameOrderMembers(s);
    GroupRowsBuckets(s, f, selected);
    ScopedBucket(rows, selected, start, f, selected);
    BucketNonEmpty(rows, f, selected);
    BucketNonEmpty(s, f, selected);
  }

  // ---------------------------------------------------------------------------------------
  // Clamp with a grace window

  /** Clamping is on from `start_frame + fps` on. */
  function Grace(rows: seq<Row>, start: int, fps: real): (active: seq<bool>)
    ensures |active| == |rows|
    ensures forall i :: 0 <= i < |rows| ==> active[i] == (rows[i].frame as real >= start as real + fps)
  {
    seq(|rows|, i requires 0 <= i < |rows| => rows[i].frame as real >= start as real + fps)
  }

  /** The rows with their coordinates replaced by what the clamp emits. */
  function Clamped(rows: seq<Row>, start: int, fps: real, threshold: real): (out: seq<Row>)
    ensures |out| == |rows|
  {
    var ps := Freeze(Points(rows), Grace(rows, start, fps), threshold);
    seq(|rows|, i requires 0 <= i < |rows| => rows[i].(x := ps[i].x, y := ps[i].y))
  }

  /**
   * The threshold loop of `reprocess_track`: it overwrites each row's coordinates in place,
   * carrying the previously emitted point (none before the first row).
   */
  method ClampWithGrace(processed: seq<Row>, start: int, fps: real, threshold: real) returns (rows: seq<Row>)
    ensures rows == Clamped(processed, start, fps, threshold)
  {
    ghost var ps, active := Points(processed), Grace(processed, start, fps);
    ghost var out := Freeze(ps, active, threshold);
    var until := start as real + fps;
    var prev: Option<Point> := None;
    rows := processed;
    var i := 0;
    while i < |rows|
      invariant 0 <= i <= |rows| == |processed|
      invariant forall k :: 0 <= k < i ==> rows[k] == processed[k].(x := out[k].x, y := out[k].y)
      invariant forall k :: i <= k < |rows| ==> rows[k] == processed[k]
      invariant prev.None? <==> i == 0
      invariant 0 < i ==> prev == Some(out[i - 1])
    {
      var row := rows[i];
      var x, y := row.x, row.y;
      if prev.Some? {
        if row.frame as real >= until {
          if Jumps(prev.value, Point(x, y), threshold) {
            x, y := prev.value.x, prev.value.y;
          }
        }
        FreezeAt(ps, active, threshold, i);
      }
      rows := rows[i := row.(x := x, y := y)];
      prev := Some(Point(x, y));
      i := i + 1;
    }
  }

  /**
   * The clamp of a reprocess: the clamp changes coordinates only; the first row and every row
   * before `start + fps` keep their selected point; every later row keeps its point unless it
   * jumps by more than the threshold from the row emitted just before it, and then repeats that
   * row's point.
   */
  lemma ClampedAt(rows: seq<Row>, start: int, fps: real, threshold: real, i: nat)
    requires i < |rows|
    ensures var out := Clamped(rows, start, fps, threshold);
            out[i].frame == rows[i].frame && out[i].cls == rows[i].cls && out[i].id == rows[i].id &&
            PointOf(out[i]) ==
              if i == 0 || (rows[i].frame as real) < start as real + fps then PointOf(rows[i])
              else if Jumps(PointOf(out[i - 1]), PointOf(rows[i]), threshold) then PointOf(out[i - 1])
              else PointOf(rows[i])
  {
    var ps, active := Points(rows), Grace(rows, start, fps);
    if i > 0 {
      FreezeAt(ps, active, threshold, i);
    }
  }

  // ---------------------------------------------------------------------------------------
  // Merge into the previous output

  /** `int(row['Class']) != selected_class_id or int(row['Frame']) < start_frame` */
  predicate Kept(r: Row, selected: int, start: int) {
    r.cls != selected || r.frame < start
  }

  /** The previous output rows the merge keeps, in their order. */
  function KeptRows(existing: seq<Row>, selected: int, start: int): seq<Row> {
    if existing == [] then []
    else
      var r := existing[|existing| - 1];
      KeptRows(existing[..|existing| - 1], selected, start) + (if Kept(r, selected, start) then [r] else [])
  }

  lemma {:induction false} KeptRowsMembers(existing: seq<Row>, selected: int, start: int)
    ensures forall r :: r in KeptRows(existing, selected, start) <==> r in existing && Kept(r, selected, start)
  {
    if existing != [] {
      var p := existing[..|existing| - 1];
      KeptRowsMembers(p, selected, start);
      assert existing == p + [existing[|existing| - 1]];
    }
  }

  /** The rows written back: the kept rows and the reprocessed rows, sorted by (Frame, Class). */
  function Reprocessed(rows: seq<Row>, existing: seq<Row>, selected: int, start: int, fps: real, threshold: real): seq<Row> {
    StableSort.Sort(KeptRows(existing, selected, start) + Clamped(Picked(rows, selected, start), start, fps, threshold),
                    FrameClassKey)
  }

  /**
   * `reprocess_track` without the file reading and writing: `rows` are the detections,
   * `existing` the previously written output; returns the rows written back.
   */
  method ReprocessTrack(rows: seq<Row>, existing: seq<Row>, selected: int, start: int, fps: real, threshold: real)
    returns (merged: seq<Row>)
    ensures merged == Reprocessed(rows, existing, selected, start, fps, threshold)
  {
    var paired := if selected % 2 == 1 then selected - 1 else selected + 1;
    var g, order := GroupScoped(rows, selected, paired, start);
    var frames := SortedFrames(order);
    var processed := SelectRows(g, frames, selected, paired);
    PickedRows(rows, selected, start);
    StableSort.SortSortedIsIdentity(processed, FrameKey);
    processed := StableSort.Sort(processed, FrameKey);
    processed := ClampWithGrace(processed, start, fps, threshold);
    var kept := KeptRows(existing, selected, start);
    merged := StableSort.Sort(kept + processed, FrameClassKey);
  }

  /** The reprocessed rows are rows of the selected class at or after the start frame. */
  lemma RedoneScope(rows: seq<Row>, selected: int, start: int, fps: real, threshold: real)
    ensures forall r :: r in Clamped(Picked(rows, selected, start), start, fps, threshold) ==>
              r.cls == selected && r.id == TrackName(selected) && r.frame >= start
  {
    var picked := Picked(rows, selected, start);
    var redone := Clamped(picked, start, fps, threshold);
    PickedRows(rows, selected, start);
    forall r | r in redone ensures r.cls == selected && r.id == TrackName(selected) && r.frame >= start {
      var i :| 0 <= i < |redone| && redone[i] == r;
      ClampedAt(picked, start, fps, threshold, i);
      assert picked[i] in picked;
    }
  }

  /**
   * Isolation: every previous row of another class, or of the selected class before the start
   * frame, is in the result exactly when it was in the previous output.
   */
  lemma ReprocessIsolation(rows: seq<Row>, existing: seq<Row>, selected: int, start: int, fps: real, threshold: real, r: Row)
    requires Kept(r, selected, start)
    ensures r in Reprocessed(rows, existing, selected, start, fps, threshold) <==> r in existing
  {
    var kept, redone := KeptRows(existing, selected, start), Clamped(Picked(rows, selected, start), start, fps, threshold);
    StableSort.SortMembership(kept + redone, FrameClassKey);
    KeptRowsMembers(existing, selected, start);
    RedoneScope(rows, selected, start, fps, threshold);
  }

  /**
   * The result is sorted by (Frame, Class), is a permutation of the kept and the reprocessed
   * rows, and its rows of the selected class from the start frame on are the reprocessed rows.
   */
  lemma ReprocessMerge(rows: seq<Row>, existing: seq<Row>, selected: int, start: int, fps: real, threshold: real)
    ensures var merged := Reprocessed(rows, existing, selected, start, fps, threshold);
            StableSort.SortedBy(merged, FrameClassKey) &&
            multiset(merged) ==
              multiset(KeptRows(existing, selected, start)) + multiset(Clamped(Picked(rows, selected, start), start, fps, threshold)) &&
            forall r :: r in merged && !Kept(r, selected, start) ==>
              r in Clamped(Picked(rows, selected, start), start, fps, threshold)
  {
    var kept, redone := KeptRows(existing, selected, start), Clamped(Picked(rows, selected, start), start, fps, threshold);
    StableSort.SortSorted(kept + redone, FrameClassKey);
    StableSort.SortMultiset(kept + redone, FrameClassKey);
    StableSort.SortMembership(kept + redone, FrameClassKey);
    KeptRowsMembers(existing, selected, start);
  }

  /** The clamp keeps every row's frame, class and name, so it keeps which frames have rows. */
  lemma ClampedKeys(rows: seq<Row>, start: int, fps: real, threshold: real, f: int)
    ensures forall i :: 0 <= i < |rows| ==>
              var out := Clamped(rows, start, fps, threshold);
              out[i].frame == rows[i].frame && out[i].cls == rows[i].cls && out[i].id == rows[i].id
    ensures FramesIncrease(rows) ==> FramesIncrease(Clamped(rows, start, fps, threshold))
    ensures (exists r :: r in Clamped(rows, start, fps, threshold) && r.frame == f) <==>
              (exists r :: r in rows && r.frame == f)
  {
    var out := Clamped(rows, start, fps, threshold);
    if exists r :: r in rows && r.frame == f {
      var r :| r in rows && r.frame == f;
      var i :| 0 <= i < |rows| && rows[i] == r;
      assert out[i] in out;
    }
    if exists r :: r in out && r.frame == f {
      var r :| r in out && r.frame == f;
      var i :| 0 <= i < |out| && out[i] == r;
      assert rows[i] in rows;
    }
  }

  /**
   * The reprocessed rows: one per frame at or after the start frame that has a detection of
   * the selected class, in increasing frame order.
   */
  lemma RedoneFrames(rows: seq<Row>, selected: int, start: int, fps: real, threshold: real, f: int)
    ensures var redone := Clamped(Picked(rows, selected, start), start, fps, threshold);
            FramesIncrease(redone) &&
            ((exists r :: r in redone && r.frame == f) <==> f >= start && Detected(rows, f, selected))
  {
    PickedRows(rows, selected, start);
    PickedFrames(rows, selected, start, f);
    ClampedKeys(Picked(rows, selected, start), start, fps, threshold, f);
  }

  /** The paired class is the other part of the same mouse, and pairing twice gives the class back. */
  lemma PairedClass(c: int)
    ensures (if c % 2 == 1 then c - 1 else c + 1) == Partner(c)
    ensures Partner(c) != c && Partner(Partner(c)) == c
  {
    PartnerInvolution(c);
  }
}
