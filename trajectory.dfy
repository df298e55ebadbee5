/**
 * `interpolate_and_threshold`: the disambiguated rows are grouped by class (in order of first
 * appearance), every class is filled over the whole range between its first and its last
 * frame by `np.interp`, clamped, and the rows of all classes are sorted by (Frame, Class).
 * The rows it receives are strictly sorted by (Frame, Class) (at most one row per frame and
 * class), so each class's frames are strictly increasing, its first frame is its minimum and
 * its last frame its maximum.
 */
module Trajectory {
  import opened Common
  import opened Grouping
  import opened TrackNames
  import opened Interpolation
  import opened JumpClamp
  import StableSort

  predicate StrictlyByFrameClass(data: seq<Row>) {
    StableSort.StrictlySortedBy(data, FrameClassKey)
  }

  /** `grouped_data[c]`: the rows of class `c`, in their input order. */
  function ClassRows(data: seq<Row>, c: int): seq<Row> {
    if data == [] then []
    else
      var r := data[|data| - 1];
      ClassRows(data[..|data| - 1], c) + (if r.cls == c then [r] else [])
  }

  /** The keys of `grouped_data`: the classes of the rows in order of first appearance. */
  function ClassOrder(data: seq<Row>): seq<int> {
    if data == [] then []
    else
      var order := ClassOrder(data[..|data| - 1]);
      var c := data[|data| - 1].cls;
      if c in order then order else order + [c]
  }

  function Frames(s: seq<Row>): (fs: seq<int>)
    ensures |fs| == |s| && forall i :: 0 <= i < |s| ==> fs[i] == s[i].frame
  {
    seq(|s|, i requires 0 <= i < |s| => s[i].frame)
  }

  function Xs(s: seq<Row>): (xs: seq<real>)
    ensures |xs| == |s| && forall i :: 0 <= i < |s| ==> xs[i] == s[i].x
  {
    seq(|s|, i requires 0 <= i < |s| => s[i].x)
  }

  function Ys(s: seq<Row>): (ys: seq<real>)
    ensures |ys| == |s| && forall i :: 0 <= i < |s| ==> ys[i] == s[i].y
  {
    seq(|s|, i requires 0 <= i < |s| => s[i].y)
  }

  /** Rows of one class, frames strictly increasing. */
  predicate ClassTrackInput(s: seq<Row>) {
    StrictlyIncreasing(Frames(s))
  }

  /**
   * `x_interp` and `y_interp` zipped: the interpolated point of every frame of
   * `np.arange(min, max + 1)`, index `i` standing for frame `min + i`.
   */
  function Filled(s: seq<Row>): (ps: seq<Point>)
    requires s != [] && ClassTrackInput(s)
    ensures |ps| == s[|s| - 1].frame - s[0].frame + 1
  {
    var fs, lo, hi := Frames(s), s[0].frame, s[|s| - 1].frame;
    assert lo <= hi by { assert |s| == 1 || fs[0] < fs[|s| - 1]; }
    seq(hi - lo + 1, i requires 0 <= i <= hi - lo =>
      Point(Interp(fs, Xs(s), lo + i), Interp(fs, Ys(s), lo + i)))
  }

  /** The filled point of frame `min + i` is the interpolation of both axes at that frame. */
  lemma FilledAt(s: seq<Row>, i: nat)
    requires s != [] && ClassTrackInput(s) && i < |Filled(s)|
    ensures Filled(s)[i] == Point(Interp(Frames(s), Xs(s), s[0].frame + i), Interp(Frames(s), Ys(s), s[0].frame + i))
  {
  }

  /** The output rows of class `c` for the points of frames `first`, `first + 1`, ... */
  function RowsOf(c: int, first: int, ps: seq<Point>): (rows: seq<Row>)
    ensures |rows| == |ps|
    ensures forall i :: 0 <= i < |ps| ==>
              rows[i] == Row(first + i, TrackName(c), c, ps[i].x, ps[i].y)
  {
    seq(|ps|, i requires 0 <= i < |ps| => Row(first + i, TrackName(c), c, ps[i].x, ps[i].y))
  }

  /** The rows one class contributes: its filled range, clamped everywhere. */
  function Track(s: seq<Row>, c: int, threshold: real): seq<Row>
    requires ClassTrackInput(s)
  {
    if s == [] then []
    else
      var ps := Filled(s);
      RowsOf(c, s[0].frame, Freeze(ps, Always(|ps|), threshold))
  }

  /** `interpolated_data` before the final sort: the tracks of the given classes, in order. */
  function AllTracks(data: seq<Row>, classes: seq<int>, threshold: real): seq<Row>
    requires StrictlyByFrameClass(data)
  {
    if classes == [] then []
    else
      var c := classes[|classes| - 1];
      ClassRowsIncrease(data, c);
      AllTracks(data, classes[..|classes| - 1], threshold) + Track(ClassRows(data, c), c, threshold)
  }

  /** What `interpolate_and_threshold(data, threshold)` returns. */
  function Interpolated(data: seq<Row>, threshold: real): seq<Row>
    requires StrictlyByFrameClass(data)
  {
    StableSort.Sort(AllTracks(data, ClassOrder(data), threshold), FrameClassKey)
  }

  // ---------------------------------------------------------------------------------------
  // Grouping by class

  /** A class's rows are exactly the rows of that class. */
  lemma {:induction false} ClassRowsMembers(data: seq<Row>, c: int)
    ensures forall r :: r in ClassRows(data, c) <==> r in data && r.cls == c
  {
    if data != [] {
      var p := data[..|data| - 1];
      ClassRowsMembers(p, c);
      assert data == p + [data[|data| - 1]];
    }
  }

  /** Over rows strictly sorted by (Frame, Class), the rows of one class have increasing frames. */
  lemma {:induction false} ClassRowsIncrease(data: seq<Row>, c: int)
    requires StrictlyByFrameClass(data)
    ensures ClassTrackInput(ClassRows(data, c))
  {
    if data != [] {
      var p, r := data[..|data| - 1], data[|data| - 1];
      assert StrictlyByFrameClass(p);
      ClassRowsIncrease(p, c);
      ClassRowsMembers(p, c);
      var s := ClassRows(data, c);
      if r.cls == c {
        forall i, j | 0 <= i < j < |s| ensures s[i].frame < s[j].frame {
          if j == |s| - 1 {
            assert s[i] in ClassRows(p, c);
            var k :| 0 <= k < |p| && p[k] == s[i];
            assert data[k] == s[i];
          } else {
            assert s[i] == ClassRows(p, c)[i] && s[j] == ClassRows(p, c)[j];
          }
        }
      }
    }
  }

  /** The classes of `grouped_data` are the classes of the rows, each once. */
  lemma {:induction false} ClassOrderMembers(data: seq<Row>)
    ensures forall c :: c in ClassOrder(data) <==> exists r :: r in data && r.cls == c
    ensures forall i, j :: 0 <= i < j < |ClassOrder(data)| ==> ClassOrder(data)[i] != ClassOrder(data)[j]
  {
    if data != [] {
      var p := data[..|data| - 1];
      ClassOrderMembers(p);
      assert data == p + [data[|data| - 1]];
      forall c ensures c in ClassOrder(data) <==> exists r :: r in data && r.cls == c {
        if c in ClassOrder(p) {
          var r :| r in p && r.cls == c;
          assert r in data;
        }
      }
    }
  }

  /** Appending one row to the data extends its class's rows and, if new, the class order. */
  lemma ClassStep(data: seq<Row>, i: nat)
    requires i < |data|
    ensures forall c :: ClassRows(data[..i + 1], c) ==
              ClassRows(data[..i], c) + (if data[i].cls == c then [data[i]] else [])
    ensures ClassOrder(data[..i + 1]) ==
              if data[i].cls in ClassOrder(data[..i]) then ClassOrder(data[..i]) else ClassOrder(data[..i]) + [data[i].cls]
  {
    assert data[..i + 1][..i] == data[..i];
  }

  /** The grouping loop of `interpolate_and_threshold`. */
  method GroupByClass(data: seq<Row>) returns (byClass: map<int, seq<Row>>, classes: seq<int>)
    ensures classes == ClassOrder(data)
    ensures forall c :: c in byClass <==> c in classes
    ensures forall c :: c in byClass ==> byClass[c] == ClassRows(data, c)
  {
    byClass, classes := map[], [];
    var i := 0;
    while i < |data|
      invariant 0 <= i <= |data|
      invariant classes == ClassOrder(data[..i])
      invariant forall c :: c in byClass <==> c in classes
      invariant forall c :: c in byClass ==> byClass[c] == ClassRows(data[..i], c)
      invariant forall c :: c !in byClass ==> ClassRows(data[..i], c) == []
    {
      var r := data[i];
      ClassStep(data, i);
      var rows := if r.cls in byClass then byClass[r.cls] else [];
      if r.cls !in byClass {
        classes := classes + [r.cls];
      }
      byClass := byClass[r.cls := rows + [r]];
      i := i + 1;
    }
    assert data[..i] == data;
  }

  // ---------------------------------------------------------------------------------------
  // One class

  /** The rows for the points of one more frame. */
  lemma RowsOfSnoc(c: int, first: int, ps: seq<Point>, p: Point)
    ensures RowsOf(c, first, ps + [p]) == RowsOf(c, first, ps) + [Row(first + |ps|, TrackName(c), c, p.x, p.y)]
  {
  }

  /** The rows of one class's track are sorted by (Frame, Class). */
  lemma RowsOfSorted(c: int, first: int, ps: seq<Point>)
    ensures StableSort.SortedBy(RowsOf(c, first, ps), FrameClassKey)
  {
    var rows := RowsOf(c, first, ps);
    forall i, j | 0 <= i < j < |rows| ensures StableSort.KeyLe(FrameClassKey(rows[i]), FrameClassKey(rows[j])) {
      assert rows[i].frame == first + i && rows[j].frame == first + j;
    }
  }

  /** One iteration of the clamp loop of one class emits the clamp's next point. */
  lemma ClampClassStep(points: seq<Point>, threshold: real, i: nat, emitted: seq<Point>, prev: Point, p: Point)
    requires i < |points| && emitted == Freeze(points, Always(|points|), threshold)[..i]
    requires 0 < i ==> prev == emitted[i - 1]
    requires p == if i > 0 && Jumps(prev, points[i], threshold) then prev else points[i]
    ensures emitted + [p] == Freeze(points, Always(|points|), threshold)[..i + 1]
  {
    var out := Freeze(points, Always(|points|), threshold);
    if i > 0 {
      FreezeAt(points, Always(|points|), threshold, i);
    }
    assert out[..i + 1] == out[..i] + [out[i]];
  }

  /**
   * The clamp loop over one class's filled frames, carrying the previously emitted point;
   * `points` are `x_interp` and `y_interp` zipped, index `i` standing for frame `first + i`.
   */
  method ClampClass(points: seq<Point>, c: int, first: int, threshold: real) returns (track: seq<Row>)
    requires points != []
    ensures track == RowsOf(c, first, Freeze(points, Always(|points|), threshold))
  {
    ghost var emitted: seq<Point> := [];
    var prev := points[0];
    track := [];
    var i := 0;
    while i < |points|
      invariant 0 <= i <= |points|
      invariant emitted == Freeze(points, Always(|points|), threshold)[..i]
      invariant track == RowsOf(c, first, emitted)
      invariant 0 < i ==> prev == emitted[i - 1]
    {
      var p := points[i];
      if i > 0 {
        if Jumps(prev, p, threshold) {
          p := prev;
        }
      }
      ClampClassStep(points, threshold, i, emitted, prev, p);
      RowsOfSnoc(c, first, emitted, p);
      track := track + [Row(first + i, TrackName(c), c, p.x, p.y)];
      emitted := emitted + [p];
      prev := p;
      i := i + 1;
    }
    assert emitted == Freeze(points, Always(|points|), threshold);
  }

  /**
   * A class's track covers every frame from its first to its last sample once, in order, with
   * its class and track name, and no frame outside that range.
   */
  lemma TrackCovers(s: seq<Row>, c: int, threshold: real)
    requires s != [] && ClassTrackInput(s)
    ensures var track := Track(s, c, threshold);
            |track| == s[|s| - 1].frame - s[0].frame + 1 &&
            forall i :: 0 <= i < |track| ==>
              track[i].frame == s[0].frame + i && track[i].cls == c && track[i].id == TrackName(c)
  {
  }

  /**
   * The clamp on a class's track: the first frame carries the interpolated point; every later
   * frame carries its interpolated point unless that jumps by more than the threshold from the
   * row emitted just before it, in which case it repeats that row's point.
   */
  lemma TrackClamp(s: seq<Row>, c: int, threshold: real, i: nat)
    requires s != [] && ClassTrackInput(s) && i < |Filled(s)|
    ensures var track, ps := Track(s, c, threshold), Filled(s);
            PointOf(track[i]) ==
              if i == 0 then ps[0]
              else if Jumps(PointOf(track[i - 1]), ps[i], threshold) then PointOf(track[i - 1])
              else ps[i]
  {
    var ps := Filled(s);
    if i > 0 {
      FreezeAt(ps, Always(|ps|), threshold, i);
    }
  }

  /** The filled range passes through every sample at its own frame. */
  lemma FilledAtSample(s: seq<Row>, k: nat)
    requires s != [] && ClassTrackInput(s) && k < |s|
    ensures 0 <= s[k].frame - s[0].frame < |Filled(s)| && Filled(s)[s[k].frame - s[0].frame] == PointOf(s[k])
  {
    var fs := Frames(s);
    assert k == 0 || fs[0] < fs[k];
    assert k == |s| - 1 || fs[k] < fs[|s| - 1];
    FilledAt(s, s[k].frame - s[0].frame);
    InterpAtSample(fs, Xs(s), k);
    InterpAtSample(fs, Ys(s), k);
  }

  /** When the clamp never fires, every sample frame reproduces its sample exactly. */
  lemma TrackAtSamples(s: seq<Row>, c: int, threshold: real, k: nat)
    requires s != [] && ClassTrackInput(s) && k < |s|
    requires NoJumps(Filled(s), threshold)
    ensures var track := Track(s, c, threshold);
            0 <= s[k].frame - s[0].frame < |track| && PointOf(track[s[k].frame - s[0].frame]) == PointOf(s[k])
  {
    var ps := Filled(s);
    FreezeWithoutJumps(ps, Always(|ps|), threshold);
    assert Track(s, c, threshold) == RowsOf(c, s[0].frame, ps);
    FilledAtSample(s, k);
  }

  /** Frames with no gaps between them. */
  predicate Dense(s: seq<Row>) {
    forall i :: 0 <= i < |s| ==> s[i].frame == s[0].frame + i
  }

  lemma DenseIncreasing(s: seq<Row>)
    requires Dense(s)
    ensures ClassTrackInput(s)
  {
  }

  /** Interpolating a track that already has a sample at every frame changes nothing. */
  lemma FilledDense(s: seq<Row>)
    requires s != [] && Dense(s)
    ensures ClassTrackInput(s) && Filled(s) == Points(s)
  {
    var ps := Filled(s);
    forall i | 0 <= i < |s| ensures ps[i] == PointOf(s[i]) {
      InterpAtSample(Frames(s), Xs(s), i);
      InterpAtSample(Frames(s), Ys(s), i);
    }
  }

  // ---------------------------------------------------------------------------------------
  // All classes

  /** Some row of `rows` has frame `f` and class `c`. */
  predicate HasKey(rows: seq<Row>, f: int, c: int) {
    exists r :: r in rows && r.frame == f && r.cls == c
  }

  lemma HasKeyAppend(a: seq<Row>, b: seq<Row>, f: int, c: int)
    ensures HasKey(a + b, f, c) <==> HasKey(a, f, c) || HasKey(b, f, c)
  {
    if HasKey(a + b, f, c) {
      var r :| r in a + b && r.frame == f && r.cls == c;
      assert r in a || r in b;
    }
    if HasKey(a, f, c) {
      var r :| r in a && r.frame == f && r.cls == c;
      assert r in a + b;
    }
    if HasKey(b, f, c) {
      var r :| r in b && r.frame == f && r.cls == c;
      assert r in a + b;
    }
  }

  /** Frame `f` lies between the first and the last of the rows `s`. */
  predicate Covers(s: seq<Row>, f: int) {
    s != [] && s[0].frame <= f <= s[|s| - 1].frame
  }

  /** A class's track has a row at frame `f` exactly for the frames of its sampled range. */
  lemma TrackKeys(s: seq<Row>, last: int, threshold: real, f: int, c: int)
    requires ClassTrackInput(s)
    ensures HasKey(Track(s, last, threshold), f, c) <==> c == last && Covers(s, f)
  {
    if s == [] {
      return;
    }
    var b := Track(s, last, threshold);
    TrackCovers(s, last, threshold);
    if HasKey(b, f, c) {
      var r :| r in b && r.frame == f && r.cls == c;
      var k :| 0 <= k < |b| && b[k] == r;
    }
    if c == last && s[0].frame <= f <= s[|s| - 1].frame {
      assert b[f - s[0].frame] in b;
    }
  }

  /** Rows of the tracks of the given classes: which (frame, class) pairs occur. */
  lemma {:induction false} AllTracksMembers(data: seq<Row>, classes: seq<int>, threshold: real, f: int, c: int)
    requires StrictlyByFrameClass(data)
    ensures HasKey(AllTracks(data, classes, threshold), f, c) <==> c in classes && Covers(ClassRows(data, c), f)
  {
    if classes != [] {
      var p, last := classes[..|classes| - 1], classes[|classes| - 1];
      AllTracksMembers(data, p, threshold, f, c);
      AllTracksKeysSnoc(data, classes, threshold, f, c);
      assert classes == p + [last];
    }
  }

  /** The keys the last class's track adds to those of the classes before it. */
  lemma AllTracksKeysSnoc(data: seq<Row>, classes: seq<int>, threshold: real, f: int, c: int)
    requires StrictlyByFrameClass(data) && classes != []
    ensures var last := classes[|classes| - 1];
            HasKey(AllTracks(data, classes, threshold), f, c) <==>
              HasKey(AllTracks(data, classes[..|classes| - 1], threshold), f, c) ||
              (c == last && Covers(ClassRows(data, last), f))
  {
    var last := classes[|classes| - 1];
    ClassRowsIncrease(data, last);
    HasKeyAppend(AllTracks(data, classes[..|classes| - 1], threshold), Track(ClassRows(data, last), last, threshold), f, c);
    TrackKeys(ClassRows(data, last), last, threshold, f, c);
  }

  /** The keys of the rows of the tracks of the given classes. */
  lemma {:induction false} AllTracksClasses(data: seq<Row>, classes: seq<int>, threshold: real)
    requires StrictlyByFrameClass(data)
    ensures forall r :: r in AllTracks(data, classes, threshold) ==> r.cls in classes
  {
    if classes != [] {
      var p, last := classes[..|classes| - 1], classes[|classes| - 1];
      AllTracksClasses(data, p, threshold);
      ClassRowsIncrease(data, last);
      var s := ClassRows(data, last);
      if s != [] {
        TrackCovers(s, last, threshold);
      }
    }
  }

  /** Distinct classes give tracks with no (frame, class) pair twice. */
  lemma {:induction false} AllTracksUnique(data: seq<Row>, classes: seq<int>, threshold: real)
    requires StrictlyByFrameClass(data)
    requires forall i, j :: 0 <= i < j < |classes| ==> classes[i] != classes[j]
    ensures StableSort.UniqueKeys(AllTracks(data, classes, threshold), FrameClassKey)
  {
    if classes != [] {
      var p, last := classes[..|classes| - 1], classes[|classes| - 1];
      AllTracksUnique(data, p, threshold);
      AllTracksClasses(data, p, threshold);
      var a := AllTracks(data, p, threshold);
      ClassRowsIncrease(data, last);
      var s := ClassRows(data, last);
      var b := Track(s, last, threshold);
      var all := a + b;
      assert last !in p;
      if s != [] {
        TrackCovers(s, last, threshold);
      }
      forall i, j | 0 <= i < j < |all| ensures FrameClassKey(all[i]) != FrameClassKey(all[j]) {
        if j < |a| {
          assert all[i] == a[i] && all[j] == a[j];
        } else if i < |a| {
          assert all[i] == a[i] && all[i] in a;
          assert all[j] == b[j - |a|];
        } else {
          assert all[i] == b[i - |a|] && all[j] == b[j - |a|];
        }
      }
    }
  }

  /**
   * The output of `interpolate_and_threshold` is strictly sorted by (Frame, Class) — exactly one
   * row per (frame, class) — and is a permutation of the per-class tracks.
   */
  lemma InterpolatedSorted(data: seq<Row>, threshold: real)
    requires StrictlyByFrameClass(data)
    ensures StableSort.StrictlySortedBy(Interpolated(data, threshold), FrameClassKey)
    ensures multiset(Interpolated(data, threshold)) == multiset(AllTracks(data, ClassOrder(data), threshold))
  {
    ClassOrderMembers(data);
    AllTracksUnique(data, ClassOrder(data), threshold);
    StableSort.SortStrict(AllTracks(data, ClassOrder(data), threshold), FrameClassKey);
    StableSort.SortMultiset(AllTracks(data, ClassOrder(data), threshold), FrameClassKey);
  }

  /** Two rows of class `c` around `f` put `f` between the class's first and last row. */
  lemma ClassRangeFromRows(data: seq<Row>, f: int, c: int, i: nat, j: nat)
    requires StrictlyByFrameClass(data)
    requires i < |data| && j < |data| && data[i].cls == c && data[j].cls == c && data[i].frame <= f <= data[j].frame
    ensures Covers(ClassRows(data, c), f)
  {
    ClassRowsMembers(data, c);
    ClassRowsIncrease(data, c);
    assert data[i] in data && data[j] in data;
    CoversMembers(ClassRows(data, c), data[i], data[j], f);
  }

  /** A frame between two rows of an increasing class lies between its first and last frame. */
  lemma CoversMembers(s: seq<Row>, a: Row, b: Row, f: int)
    requires ClassTrackInput(s) && a in s && b in s && a.frame <= f <= b.frame
    ensures Covers(s, f)
  {
    var ka :| 0 <= ka < |s| && s[ka] == a;
    var kb :| 0 <= kb < |s| && s[kb] == b;
    assert ka == 0 || Frames(s)[0] < Frames(s)[ka];
    assert kb == |s| - 1 || Frames(s)[kb] < Frames(s)[|s| - 1];
  }

  /** Frame `f` lies between two rows of class `c`. */
  predicate Spans(data: seq<Row>, f: int, c: int) {
    exists i, j :: 0 <= i < |data| && 0 <= j < |data| &&
      data[i].cls == c && data[j].cls == c && data[i].frame <= f <= data[j].frame
  }

  /** A frame lies between two rows of class `c` exactly when it lies between its first and last. */
  lemma ClassRange(data: seq<Row>, f: int, c: int)
    requires StrictlyByFrameClass(data)
    ensures Spans(data, f, c) <==> Covers(ClassRows(data, c), f)
  {
    var s := ClassRows(data, c);
    if Spans(data, f, c) {
      var i, j :| 0 <= i < |data| && 0 <= j < |data| &&
         data[i].cls == c && data[j].cls == c && data[i].frame <= f <= data[j].frame;
      ClassRangeFromRows(data, f, c, i, j);
    }
    if s != [] && s[0].frame <= f <= s[|s| - 1].frame {
      ClassRowsMembers(data, c);
      assert s[0] in s && s[|s| - 1] in s;
      var i :| 0 <= i < |data| && data[i] == s[0];
      var j :| 0 <= j < |data| && data[j] == s[|s| - 1];
      assert data[i].cls == c && data[j].cls == c && data[i].frame <= f <= data[j].frame;
    }
  }

  /**
   * No extrapolation and no gap: the output has a row of class `c` at frame `f` exactly when
   * some row of class `c` lies at or before `f` and some row of class `c` at or after it.
   */
  lemma InterpolatedCoverage(data: seq<Row>, threshold: real, f: int, c: int)
    requires StrictlyByFrameClass(data)
    ensures HasKey(Interpolated(data, threshold), f, c) <==> Spans(data, f, c)
  {
    var all := AllTracks(data, ClassOrder(data), threshold);
    StableSort.SortMembership(all, FrameClassKey);
    AllTracksMembers(data, ClassOrder(data), threshold, f, c);
    ClassOrderMembers(data);
    ClassRowsMembers(data, c);
    ClassRange(data, f, c);
    var s := ClassRows(data, c);
    if s != [] {
      assert s[0] in s;
    }
  }

  /** The detections of a worked scenario: class 0 at frames 0 and 2. */
  function ScenarioData(): seq<Row> {
    [Row(0, TrackName(0), 0, 10.0, 10.0), Row(2, TrackName(0), 0, 20.0, 10.0)]
  }

  lemma ScenarioClasses()
    ensures ClassOrder(ScenarioData()) == [0] && ClassRows(ScenarioData(), 0) == ScenarioData()
  {
    var data := ScenarioData();
    assert data[..1] == [data[0]] && data[..1][..0] == [];
    assert ClassOrder(data[..1]) == [0];
    assert ClassRows(data[..1], 0) == [data[0]];
  }

  lemma ScenarioFilled()
    ensures ClassTrackInput(ScenarioData())
    ensures Filled(ScenarioData()) == [Point(10.0, 10.0), Point(15.0, 10.0), Point(20.0, 10.0)]
  {
    var data := ScenarioData();
    var fs := Frames(data);
    assert fs == [0, 2];
    FilledAt(data, 0);
    FilledAt(data, 1);
    FilledAt(data, 2);
    InterpAtSample(fs, Xs(data), 0);
    InterpAtSample(fs, Ys(data), 0);
    InterpAtSample(fs, Xs(data), 1);
    InterpAtSample(fs, Ys(data), 1);
    assert Interp(fs, Xs(data), 1) == 15.0;
    assert Interp(fs, Ys(data), 1) == 10.0;
  }

  /** Whatever the threshold, the scenario's output is the clamped filled points of class 0. */
  lemma ScenarioTrack(threshold: real)
    ensures StrictlyByFrameClass(ScenarioData())
    ensures Interpolated(ScenarioData(), threshold) ==
              RowsOf(0, 0, Freeze([Point(10.0, 10.0), Point(15.0, 10.0), Point(20.0, 10.0)], Always(3), threshold))
  {
    var data := ScenarioData();
    ScenarioClasses();
    ScenarioFilled();
    AllTracksSnoc(data, [0], 0, threshold);
    assert [0][..1] == [0] && [0][..0] == [];
    var rows := RowsOf(0, 0, Freeze(Filled(data), Always(3), threshold));
    assert Track(data, 0, threshold) == rows;
    assert AllTracks(data, [0], threshold) == rows;
    RowsOfSorted(0, 0, Freeze(Filled(data), Always(3), threshold));
    StableSort.SortSortedIsIdentity(rows, FrameClassKey);
  }

  /**
   * A worked scenario: detections of class 0 at frame 0 `(10, 10)` and frame 2
   * `(20, 10)`. With threshold 5 frame 1 is filled with `(15, 10)` and nothing is clamped; with
   * threshold 3 frame 1 freezes at `(10, 10)`, and so does frame 2, measured against it.
   */
  lemma ScenarioExample()
    ensures StrictlyByFrameClass(ScenarioData())
    ensures var n := TrackName(0);
            Interpolated(ScenarioData(), 5.0) ==
              [Row(0, n, 0, 10.0, 10.0), Row(1, n, 0, 15.0, 10.0), Row(2, n, 0, 20.0, 10.0)]
    ensures var n := TrackName(0);
            Interpolated(ScenarioData(), 3.0) ==
              [Row(0, n, 0, 10.0, 10.0), Row(1, n, 0, 10.0, 10.0), Row(2, n, 0, 10.0, 10.0)]
  {
    var data := ScenarioData();
    var ps := [Point(10.0, 10.0), Point(15.0, 10.0), Point(20.0, 10.0)];
    FreezeExample();
    ScenarioTrack(5.0);
    ScenarioTrack(3.0);
  }

  /** Every class of the grouping has rows, with strictly increasing frames. */
  lemma ClassOrderTrack(data: seq<Row>, c: int)
    requires StrictlyByFrameClass(data) && c in ClassOrder(data)
    ensures ClassRows(data, c) != [] && ClassTrackInput(ClassRows(data, c))
  {
    ClassOrderMembers(data);
    ClassRowsMembers(data, c);
    ClassRowsIncrease(data, c);
    var r :| r in data && r.cls == c;
    assert r in ClassRows(data, c);
  }

  /** One more class handled by the class loop. */
  lemma AllTracksSnoc(data: seq<Row>, classes: seq<int>, k: nat, threshold: real)
    requires StrictlyByFrameClass(data) && k < |classes|
    ensures ClassTrackInput(ClassRows(data, classes[k]))
    ensures AllTracks(data, classes[..k + 1], threshold) ==
              AllTracks(data, classes[..k], threshold) + Track(ClassRows(data, classes[k]), classes[k], threshold)
  {
    ClassRowsIncrease(data, classes[k]);
    assert classes[..k + 1][..k] == classes[..k];
  }

  /** `interpolate_and_threshold`: group by class, fill and clamp each class, sort. */
  method InterpolateAndThreshold(data: seq<Row>, threshold: real) returns (out: seq<Row>)
    requires StrictlyByFrameClass(data)
    ensures out == Interpolated(data, threshold)
  {
    var byClass, classes := GroupByClass(data);
    var interpolated := [];
    var k := 0;
    while k < |classes|
      invariant 0 <= k <= |classes|
      invariant interpolated == AllTracks(data, classes[..k], threshold)
    {
      var c := classes[k];
      ClassOrderTrack(data, c);
      var s := byClass[c];
      var track := ClampClass(Filled(s), c, s[0].frame, threshold);
      AllTracksSnoc(data, classes, k, threshold);
      interpolated := interpolated + track;
      k := k + 1;
    }
    assert classes[..k] == classes;
    out := StableSort.Sort(interpolated, FrameClassKey);
  }
}
