/**
 * Part Disambiguator: for every grouped frame (ascending) and every mouse 0..4, with body
 * class `2m` and head class `2m + 1`, emit at most one point per part, and count the
 * duplicates that were discarded.
 */
module Disambiguation {
  import opened Common
  import opened Grouping
  import opened TrackNames
  import StableSort

  const Mice: nat := 5

  /** Body and head of one mouse: `c - 1` for odd `c`, `c + 1` for even `c`. */
  function Partner(c: int): int {
    if c % 2 == 1 then c - 1 else c + 1
  }

  /** Pairing is an involution that never maps a class to itself, and stays within one mouse. */
  lemma PartnerInvolution(c: int)
    ensures Partner(c) != c && Partner(Partner(c)) == c && Partner(c) / 2 == c / 2
  {
  }

  /**
   * Python's `min(candidates, key=distance to ref)`: the first candidate at least as close to
   * `ref` as every other.
   */
  function Nearest(candidates: seq<Point>, ref: Point): (k: nat)
    requires |candidates| > 0
    ensures k < |candidates|
    ensures forall j :: 0 <= j < |candidates| ==> SqDist(candidates[k], ref) <= SqDist(candidates[j], ref)
    ensures forall j :: 0 <= j < k ==> SqDist(candidates[j], ref) > SqDist(candidates[k], ref)
  {
    if |candidates| == 1 then 0
    else
      var n := |candidates| - 1;
      var k := Nearest(candidates[..n], ref);
      assert forall j :: 0 <= j < n ==> candidates[..n][j] == candidates[j];
      if SqDist(candidates[n], ref) < SqDist(candidates[k], ref) then n else k
  }

  /**
   * The full run's selection for one part (lines 37-45, and 56-64 with the roles swapped):
   * nothing for no candidate; the only candidate; with several, the one nearest the
   * partner's first point, or the first one when the partner has no point.
   */
  function Choose(candidates: seq<Point>, partner: seq<Point>): Option<Point> {
    if candidates == [] then None
    else if |candidates| > 1 then
      if partner != [] then Some(candidates[Nearest(candidates, partner[0])]) else Some(candidates[0])
    else Some(candidates[0])
  }

  /**
   * What the selection promises: nothing exactly for an empty bucket; a single candidate as
   * it is; the first candidate when the partner part has no point; otherwise a candidate
   * nearest to the partner's first point, the earliest one on a tie.
   */
  lemma ChooseSelection(candidates: seq<Point>, partner: seq<Point>)
    ensures Choose(candidates, partner).None? <==> candidates == []
    ensures |candidates| == 1 ==> Choose(candidates, partner) == Some(candidates[0])
    ensures candidates != [] && partner == [] ==> Choose(candidates, partner) == Some(candidates[0])
    ensures |candidates| > 1 && partner != [] ==>
              exists k :: 0 <= k < |candidates| && Choose(candidates, partner) == Some(candidates[k]) &&
                (forall j :: 0 <= j < |candidates| ==> SqDist(candidates[k], partner[0]) <= SqDist(candidates[j], partner[0])) &&
                (forall j :: 0 <= j < k ==> SqDist(candidates[j], partner[0]) > SqDist(candidates[k], partner[0]))
  {
    if |candidates| > 1 && partner != [] {
      var k := Nearest(candidates, partner[0]);
      assert Choose(candidates, partner) == Some(candidates[k]);
    }
  }

  lemma PartnerOfMouse(m: int)
    ensures Partner(2 * m) == 2 * m + 1 && Partner(2 * m + 1) == 2 * m
  {
  }

  /** `2 * Mice` part classes: body `2m` and head `2m + 1` of each mouse `m`. */
  const Classes: nat := 2 * Mice

  /** The row a selection contributes for class `c` at frame `f`: none, or one named `Class_<c>`. */
  function Emitted(f: int, c: int, chosen: Option<Point>): seq<Row> {
    if chosen.None? then [] else [Row(f, TrackName(c), c, chosen.value.x, chosen.value.y)]
  }

  /** The row emitted for class `c` at frame `f`, if any. */
  function PartRow(g: Grouped, f: int, c: int): seq<Row> {
    Emitted(f, c, Choose(Get(g, f, c), Get(g, f, Partner(c))))
  }

  /**
   * What frame `f` emits for classes `0 .. n - 1`, in class order: one mouse after another,
   * body before head.
   */
  function FrameRows(g: Grouped, f: int, n: nat): seq<Row> {
    if n == 0 then [] else FrameRows(g, f, n - 1) + PartRow(g, f, n - 1)
  }

  /** `processed_data` after visiting the given frames in order. */
  function Resolved(g: Grouped, frames: seq<int>): seq<Row> {
    if frames == [] then []
    else Resolved(g, frames[..|frames| - 1]) + FrameRows(g, frames[|frames| - 1], Classes)
  }

  /** `len(points) - 1 if points else 0` */
  function Discarded(points: seq<Point>): nat {
    if points == [] then 0 else |points| - 1
  }

  function FrameDuplicates(g: Grouped, f: int, n: nat): nat {
    if n == 0 then 0 else FrameDuplicates(g, f, n - 1) + Discarded(Get(g, f, n - 1))
  }

  /** `duplicate_count` after visiting the given frames in order. */
  function Duplicates(g: Grouped, frames: seq<int>): nat {
    if frames == [] then 0
    else Duplicates(g, frames[..|frames| - 1]) + FrameDuplicates(g, frames[|frames| - 1], Classes)
  }

  /** The number of points of classes `0 .. n - 1` at frame `f`. */
  function FrameCandidates(g: Grouped, f: int, n: nat): nat {
    if n == 0 then 0 else FrameCandidates(g, f, n - 1) + |Get(g, f, n - 1)|
  }

  function Candidates(g: Grouped, frames: seq<int>): nat {
    if frames == [] then 0
    else Candidates(g, frames[..|frames| - 1]) + FrameCandidates(g, frames[|frames| - 1], Classes)
  }

  /**
   * The branches that pick the point of one part: nothing for no candidate, the only
   * candidate, the first one when the other part has no point, otherwise the one nearest the
   * other part's first point, the earliest on a tie.
   */
  method SelectPart(points: seq<Point>, partnerPoints: seq<Point>) returns (chosen: Option<Point>)
    ensures chosen.None? <==> points == []
    ensures |points| == 1 ==> chosen == Some(points[0])
    ensures points != [] && partnerPoints == [] ==> chosen == Some(points[0])
    ensures |points| > 1 && partnerPoints != [] ==>
              exists k :: 0 <= k < |points| && chosen == Some(points[k]) &&
                (forall j :: 0 <= j < |points| ==> SqDist(points[k], partnerPoints[0]) <= SqDist(points[j], partnerPoints[0])) &&
                (forall j :: 0 <= j < k ==> SqDist(points[j], partnerPoints[0]) > SqDist(points[k], partnerPoints[0]))
    ensures chosen == Choose(points, partnerPoints)
  {
    if points == [] {
      return None;
    }
    if |points| > 1 {
      if partnerPoints != [] {
        var k := Nearest(points, partnerPoints[0]);
        chosen := Some(points[k]);
      } else {
        chosen := Some(points[0]);
      }
    } else {
      chosen := Some(points[0]);
    }
  }

  /** Visiting mouse `m` adds its body row, then its head row, and both duplicate counts. */
  lemma MouseStep(g: Grouped, f: int, m: nat)
    ensures var bodyPoints, headPoints := Get(g, f, 2 * m), Get(g, f, 2 * m + 1);
            FrameRows(g, f, 2 * (m + 1)) == FrameRows(g, f, 2 * m) +
              (Emitted(f, 2 * m, Choose(bodyPoints, headPoints)) + Emitted(f, 2 * m + 1, Choose(headPoints, bodyPoints))) &&
            FrameDuplicates(g, f, 2 * (m + 1)) == FrameDuplicates(g, f, 2 * m) + (Discarded(bodyPoints) + Discarded(headPoints))
  {
    var c := 2 * m;
    PartnerOfMouse(m);
    PartRowEmitted(g, f, c, Choose(Get(g, f, c), Get(g, f, c + 1)));
    PartRowEmitted(g, f, c + 1, Choose(Get(g, f, c + 1), Get(g, f, c)));
    FramePairStep(g, f, c);
    assert 2 * (m + 1) == c + 2;
  }

  /** Two more classes add their rows and their duplicate counts, in class order. */
  lemma FramePairStep(g: Grouped, f: int, c: nat)
    ensures FrameRows(g, f, c + 2) == FrameRows(g, f, c) + (PartRow(g, f, c) + PartRow(g, f, c + 1))
    ensures FrameDuplicates(g, f, c + 2) == FrameDuplicates(g, f, c) + (Discarded(Get(g, f, c)) + Discarded(Get(g, f, c + 1)))
  {
    var a, b, d := FrameRows(g, f, c), PartRow(g, f, c), PartRow(g, f, c + 1);
    assert FrameRows(g, f, c + 2) == (a + b) + d;
    assert (a + b) + d == a + (b + d);
  }

  lemma PartRowEmitted(g: Grouped, f: int, c: int, chosen: Option<Point>)
    requires chosen == Choose(Get(g, f, c), Get(g, f, Partner(c)))
    ensures PartRow(g, f, c) == Emitted(f, c, chosen)
  {
  }

  /** The body of the mouse loop: the rows and the discarded duplicates of one mouse. */
  method DisambiguateMouse(g: Grouped, frame: int, mouse: nat) returns (rows: seq<Row>, duplicates: nat)
    ensures var bodyPoints, headPoints := Get(g, frame, 2 * mouse), Get(g, frame, 2 * mouse + 1);
            rows == Emitted(frame, 2 * mouse, Choose(bodyPoints, headPoints)) +
                    Emitted(frame, 2 * mouse + 1, Choose(headPoints, bodyPoints)) &&
            duplicates == Discarded(bodyPoints) + Discarded(headPoints)
  {
    var bodyClass := 2 * mouse;
    var headClass := bodyClass + 1;
    var bodyPoints := Get(g, frame, bodyClass);
    var headPoints := Get(g, frame, headClass);
    duplicates := if bodyPoints != [] then |bodyPoints| - 1 else 0;
    duplicates := duplicates + (if headPoints != [] then |headPoints| - 1 else 0);
    rows := [];
    var body := SelectPart(bodyPoints, headPoints);
    if body.Some? {
      rows := rows + [Row(frame, TrackName(bodyClass), bodyClass, body.value.x, body.value.y)];
    }
    var head := SelectPart(headPoints, bodyPoints);
    if head.Some? {
      rows := rows + [Row(frame, TrackName(headClass), headClass, head.value.x, head.value.y)];
    }
  }

  /** The inner loop over the five mice of one frame. */
  method DisambiguateFrame(g: Grouped, frame: int) returns (rows: seq<Row>, duplicates: nat)
    ensures rows == FrameRows(g, frame, Classes)
    ensures duplicates == FrameDuplicates(g, frame, Classes)
  {
    rows, duplicates := [], 0;
    var mouse := 0;
    while mouse < Mice
      invariant 0 <= mouse <= Mice
      invariant rows == FrameRows(g, frame, 2 * mouse)
      invariant duplicates == FrameDuplicates(g, frame, 2 * mouse)
    {
      var mouseRows, discarded := DisambiguateMouse(g, frame, mouse);
      MouseStep(g, frame, mouse);
      rows, duplicates := rows + mouseRows, duplicates + discarded;
      mouse := mouse + 1;
    }
  }

  /** The loop over the grouped frames in ascending order, with the duplicate counter. */
  method Disambiguate(g: Grouped, frames: seq<int>) returns (processed: seq<Row>, duplicateCount: nat)
    ensures processed == Resolved(g, frames)
    ensures duplicateCount == Duplicates(g, frames)
  {
    processed, duplicateCount := [], 0;
    var i := 0;
    while i < |frames|
      invariant 0 <= i <= |frames|
      invariant processed == Resolved(g, frames[..i])
      invariant duplicateCount == Duplicates(g, frames[..i])
    {
      assert frames[..i + 1][..i] == frames[..i];
      var rows, duplicates := DisambiguateFrame(g, frames[i]);
      processed := processed + rows;
      duplicateCount := duplicateCount + duplicates;
      i := i + 1;
    }
    assert frames[..i] == frames;
  }

  // ---------------------------------------------------------------------------------------
  // Properties of the disambiguated rows

  /** A row that carries its class's track name and the point `Choose` selects for its bucket. */
  predicate WellChosen(g: Grouped, r: Row) {
    r.id == TrackName(r.cls) && Choose(Get(g, r.frame, r.cls), Get(g, r.frame, Partner(r.cls))) == Some(PointOf(r))
  }

  /** Rows of frame `f` whose classes lie in `lo .. hi - 1`. */
  predicate InBand(rows: seq<Row>, f: int, lo: int, hi: int) {
    forall r :: r in rows ==> r.frame == f && lo <= r.cls < hi
  }

  predicate ClassesIncrease(rows: seq<Row>) {
    forall i, j :: 0 <= i < j < |rows| ==> rows[i].cls < rows[j].cls
  }

  /** A class emits one row exactly when its bucket is not empty, and that row is well chosen. */
  lemma PartRowShape(g: Grouped, f: int, c: int)
    ensures |PartRow(g, f, c)| == (if Get(g, f, c) == [] then 0 else 1)
    ensures InBand(PartRow(g, f, c), f, c, c + 1)
    ensures forall r :: r in PartRow(g, f, c) ==> WellChosen(g, r)
  {
    ChooseSelection(Get(g, f, c), Get(g, f, Partner(c)));
  }

  lemma ClassesIncreaseAppend(a: seq<Row>, b: seq<Row>, bound: int)
    requires ClassesIncrease(a) && ClassesIncrease(b)
    requires forall r :: r in a ==> r.cls < bound
    requires forall r :: r in b ==> r.cls >= bound
    ensures ClassesIncrease(a + b)
  {
    var rows := a + b;
    forall i, j | 0 <= i < j < |rows| ensures rows[i].cls < rows[j].cls {
      if j < |a| {
        assert rows[i] == a[i] && rows[j] == a[j];
      } else if i < |a| {
        assert rows[i] == a[i] && rows[j] == b[j - |a|];
        assert a[i] in a && b[j - |a|] in b;
      } else {
        assert rows[i] == b[i - |a|] && rows[j] == b[j - |a|];
      }
    }
  }

  /** The rows of frame `f` for classes `0 .. n - 1`: at frame `f`, in that class range, increasing. */
  lemma {:induction false} FrameRowsShape(g: Grouped, f: int, n: nat)
    ensures InBand(FrameRows(g, f, n), f, 0, n)
    ensures ClassesIncrease(FrameRows(g, f, n))
  {
    if n > 0 {
      FrameRowsShape(g, f, n - 1);
      PartRowShape(g, f, n - 1);
      ClassesIncreaseAppend(FrameRows(g, f, n - 1), PartRow(g, f, n - 1), n - 1);
    }
  }

  lemma {:induction false} FrameRowsWellChosen(g: Grouped, f: int, n: nat)
    ensures forall r :: r in FrameRows(g, f, n) ==> WellChosen(g, r)
  {
    if n > 0 {
      FrameRowsWellChosen(g, f, n - 1);
      PartRowShape(g, f, n - 1);
    }
  }

  /** Every class `0 .. n - 1` with a point at frame `f` has its row among the frame's rows. */
  lemma {:induction false} FrameRowsComplete(g: Grouped, f: int, n: nat, c: int)
    requires 0 <= c < n && Get(g, f, c) != []
    ensures exists r :: r in FrameRows(g, f, n) && r.cls == c
  {
    var a, b := FrameRows(g, f, n - 1), PartRow(g, f, n - 1);
    assert FrameRows(g, f, n) == a + b;
    if c < n - 1 {
      FrameRowsComplete(g, f, n - 1, c);
      var r :| r in a && r.cls == c;
      assert r in a + b;
    } else {
      PartRowShape(g, f, c);
      var r := b[0];
      assert r in b && r.cls == c;
      assert r in a + b;
    }
  }

  /** Rows of one frame with increasing classes are strictly ordered by (Frame, Class). */
  lemma OneFrameStrict(rows: seq<Row>, f: int, lo: int, hi: int)
    requires InBand(rows, f, lo, hi) && ClassesIncrease(rows)
    ensures StableSort.StrictlySortedBy(rows, FrameClassKey)
  {
    forall i, j | 0 <= i < j < |rows| ensures StableSort.KeyLt(FrameClassKey(rows[i]), FrameClassKey(rows[j])) {
      assert rows[i] in rows && rows[j] in rows;
    }
  }

  /** Every resolved row belongs to a visited frame and to one of the classes 0..9. */
  lemma {:induction false} ResolvedRows(g: Grouped, frames: seq<int>)
    ensures forall r :: r in Resolved(g, frames) ==> r.frame in frames && 0 <= r.cls < Classes
  {
    if frames != [] {
      var p, f := frames[..|frames| - 1], frames[|frames| - 1];
      ResolvedRows(g, p);
      FrameRowsShape(g, f, Classes);
      assert forall x :: x in p ==> x in frames;
    }
  }

  /** Every resolved row has its class's track name and the point selected for its bucket. */
  lemma {:induction false} ResolvedWellChosen(g: Grouped, frames: seq<int>)
    ensures forall r :: r in Resolved(g, frames) ==> WellChosen(g, r)
  {
    if frames != [] {
      ResolvedWellChosen(g, frames[..|frames| - 1]);
      FrameRowsWellChosen(g, frames[|frames| - 1], Classes);
    }
  }

  /**
   * Over ascending frames the emitted rows are strictly ordered by (Frame, Class): at most one
   * row per (frame, class), so the sort that follows leaves them as they are.
   */
  lemma {:induction false} ResolvedSorted(g: Grouped, frames: seq<int>)
    requires StrictlyIncreasing(frames)
    ensures StableSort.StrictlySortedBy(Resolved(g, frames), FrameClassKey)
  {
    if frames != [] {
      var p, f := frames[..|frames| - 1], frames[|frames| - 1];
      var a, b := Resolved(g, p), FrameRows(g, f, Classes);
      ResolvedSorted(g, p);
      ResolvedRows(g, p);
      FrameRowsShape(g, f, Classes);
      OneFrameStrict(b, f, 0, Classes);
      forall x, y | x in a && y in b ensures StableSort.KeyLt(FrameClassKey(x), FrameClassKey(y)) {
        var k :| 0 <= k < |p| && p[k] == x.frame;
        assert frames[k] == x.frame;
      }
      StableSort.StrictAppend(a, b, FrameClassKey);
    }
  }

  /**
   * A row for class `c` at frame `f` is emitted exactly when `f` is visited, `c` is a body or
   * head class of mice 0..4 and its bucket is not empty.
   */
  lemma {:induction false} ResolvedComplete(g: Grouped, frames: seq<int>, f: int, c: int)
    ensures (exists r :: r in Resolved(g, frames) && r.frame == f && r.cls == c) <==>
              f in frames && 0 <= c < Classes && Get(g, f, c) != []
  {
    if frames != [] {
      var p, last := frames[..|frames| - 1], frames[|frames| - 1];
      var a, b := Resolved(g, p), FrameRows(g, last, Classes);
      assert Resolved(g, frames) == a + b;
      ResolvedComplete(g, p, f, c);
      assert forall x :: x in frames <==> x in p || x == last;
      if exists r: Row :: r in a + b && r.frame == f && r.cls == c {
        var r: Row :| r in a + b && r.frame == f && r.cls == c;
        ResolvedRows(g, frames);
        ResolvedWellChosen(g, frames);
        ChooseSelection(Get(g, f, c), Get(g, f, Partner(c)));
      }
      if f == last && 0 <= c < Classes && Get(g, f, c) != [] {
        FrameRowsComplete(g, f, Classes, c);
        FrameRowsShape(g, f, Classes);
        var r :| r in b && r.cls == c;
        assert r in a + b;
      }
    }
  }

  lemma {:induction false} FrameConservation(g: Grouped, f: int, n: nat)
    ensures FrameDuplicates(g, f, n) + |FrameRows(g, f, n)| == FrameCandidates(g, f, n)
  {
    if n > 0 {
      FrameConservation(g, f, n - 1);
      PartRowShape(g, f, n - 1);
    }
  }

  /**
   * Every point of classes 0..9 in a visited frame is either emitted or counted in
   * `duplicate_count`: the counter grows by `len(bucket) - 1` per non-empty bucket.
   */
  lemma {:induction false} DuplicateConservation(g: Grouped, frames: seq<int>)
    ensures Duplicates(g, frames) + |Resolved(g, frames)| == Candidates(g, frames)
  {
    if frames != [] {
      DuplicateConservation(g, frames[..|frames| - 1]);
      FrameConservation(g, frames[|frames| - 1], Classes);
    }
  }

  /** A worked example: body candidates (0,0) and (10,10) with the head at (1,1), and with no head. */
  lemma NearestHeadExample()
    ensures Choose([Point(0.0, 0.0), Point(10.0, 10.0)], [Point(1.0, 1.0)]) == Some(Point(0.0, 0.0))
    ensures Choose([Point(10.0, 10.0), Point(0.0, 0.0)], []) == Some(Point(10.0, 10.0))
  {
  }
}
