/**
 * Detection Grouper: `grouped_data[frame][class_id].append((x, y))` over the input rows, and
 * the ascending frame order in which the grouped frames are visited
 * (`sorted(grouped_data.items())`).
 */
module Grouping {
  import opened Common

  /** frame -> class -> points, as the nested defaultdict holds them. */
  type Grouped = map<int, map<int, seq<Point>>>

  /** `grouped_data[f].get(c, [])`, with a missing frame read as an empty inner dict. */
  function Get(g: Grouped, f: int, c: int): seq<Point> {
    if f in g && c in g[f] then g[f][c] else []
  }

  /** One `append` into the nested dict. */
  function Append(g: Grouped, f: int, c: int, p: Point): Grouped {
    var inner := if f in g then g[f] else map[];
    g[f := inner[c := Get(g, f, c) + [p]]]
  }

  /** The dict after appending every row, in input order. */
  function GroupRows(rows: seq<Row>): Grouped {
    if rows == [] then map[]
    else
      var r := rows[|rows| - 1];
      Append(GroupRows(rows[..|rows| - 1]), r.frame, r.cls, PointOf(r))
  }

  /** The points of the rows at frame `f` and class `c`, in input order. */
  function Bucket(rows: seq<Row>, f: int, c: int): seq<Point> {
    if rows == [] then []
    else
      var r := rows[|rows| - 1];
      Bucket(rows[..|rows| - 1], f, c) + (if r.frame == f && r.cls == c then [PointOf(r)] else [])
  }

  /** The distinct frames of the rows in order of first appearance (the dict's key order). */
  function FrameOrder(rows: seq<Row>): seq<int> {
    if rows == [] then []
    else
      var order := FrameOrder(rows[..|rows| - 1]);
      var f := rows[|rows| - 1].frame;
      if f in order then order else order + [f]
  }

  predicate StrictlyIncreasing(s: seq<int>) {
    forall i, j :: 0 <= i < j < |s| ==> s[i] < s[j]
  }

  /** Inserts `x` into a strictly increasing sequence, unless it is already there. */
  function InsertFrame(x: int, s: seq<int>): (r: seq<int>)
    requires StrictlyIncreasing(s)
    ensures StrictlyIncreasing(r)
    ensures forall y :: y in r <==> y == x || y in s
  {
    if s == [] || x < s[0] then [x] + s
    else if x == s[0] then s
    else
      var t := InsertFrame(x, s[1..]);
      assert forall y :: y in s <==> y == s[0] || y in s[1..];
      assert forall y :: y in t ==> s[0] < y;
      [s[0]] + t
  }

  /** `sorted` applied to a list of distinct frames. */
  function SortedFrames(s: seq<int>): (r: seq<int>)
    ensures StrictlyIncreasing(r)
    ensures forall y :: y in r <==> y in s
  {
    if s == [] then [] else InsertFrame(s[0], SortedFrames(s[1..]))
  }

  /** Grouping the rows builds exactly the input-order buckets. */
  lemma {:induction false} GroupRowsBuckets(rows: seq<Row>, f: int, c: int)
    ensures Get(GroupRows(rows), f, c) == Bucket(rows, f, c)
  {
    if rows != [] {
      GroupRowsBuckets(rows[..|rows| - 1], f, c);
    }
  }

  /** A frame is a key of the dict exactly when some row has that frame; no bucket is empty. */
  lemma {:induction false} GroupRowsKeys(rows: seq<Row>)
    ensures forall f :: f in GroupRows(rows) <==> f in FrameOrder(rows)
    ensures forall f, c :: f in GroupRows(rows) && c in GroupRows(rows)[f] ==> GroupRows(rows)[f][c] != []
  {
    if rows != [] {
      GroupRowsKeys(rows[..|rows| - 1]);
    }
  }

  lemma {:induction false} FrameOrderMembers(rows: seq<Row>)
    ensures forall f :: f in FrameOrder(rows) <==> exists i :: 0 <= i < |rows| && rows[i].frame == f
  {
    if rows != [] {
      var p := rows[..|rows| - 1];
      FrameOrderMembers(p);
      forall f ensures f in FrameOrder(rows) <==> exists i :: 0 <= i < |rows| && rows[i].frame == f {
        if f in FrameOrder(p) {
          var i :| 0 <= i < |p| && p[i].frame == f;
          assert rows[i].frame == f;
        }
        if exists i :: 0 <= i < |rows| && rows[i].frame == f {
          var i :| 0 <= i < |rows| && rows[i].frame == f;
          if i < |p| {
            assert p[i].frame == f;
          }
        }
      }
    }
  }

  /** The number of rows before index `i` that share its frame and class. */
  function Rank(rows: seq<Row>, i: int): nat
    requires 0 <= i < |rows|
  {
    |Bucket(rows[..i], rows[i].frame, rows[i].cls)|
  }

  lemma {:induction false} BucketPrefix(rows: seq<Row>, n: nat, f: int, c: int)
    requires n <= |rows|
    ensures Bucket(rows[..n], f, c) <= Bucket(rows, f, c)
    decreases |rows|
  {
    if n < |rows| {
      var p := rows[..|rows| - 1];
      assert rows[..n] == p[..n];
      BucketPrefix(p, n, f, c);
    } else {
      assert rows[..n] == rows;
    }
  }

  /**
   * Every row lands in the bucket of its own frame and class, at the position given by the
   * number of earlier rows with that frame and class: buckets keep input order.
   */
  lemma RowInItsBucket(rows: seq<Row>, i: int)
    requires 0 <= i < |rows|
    ensures Rank(rows, i) < |Bucket(rows, rows[i].frame, rows[i].cls)|
    ensures Bucket(rows, rows[i].frame, rows[i].cls)[Rank(rows, i)] == PointOf(rows[i])
  {
    var r := rows[i];
    var q := rows[..i + 1];
    assert q[..|q| - 1] == rows[..i];
    assert Bucket(q, r.frame, r.cls) == Bucket(rows[..i], r.frame, r.cls) + [PointOf(r)];
    BucketPrefix(rows, i + 1, r.frame, r.cls);
  }

  /** A bucket holds only points of rows with its frame and class. */
  lemma {:induction false} BucketMembers(rows: seq<Row>, f: int, c: int, p: Point)
    requires p in Bucket(rows, f, c)
    ensures exists i :: 0 <= i < |rows| && rows[i].frame == f && rows[i].cls == c && PointOf(rows[i]) == p
  {
    var q := rows[..|rows| - 1];
    var r := rows[|rows| - 1];
    if p in Bucket(q, f, c) {
      BucketMembers(q, f, c, p);
      var i :| 0 <= i < |q| && q[i].frame == f && q[i].cls == c && PointOf(q[i]) == p;
      assert rows[i] == q[i];
    } else {
      assert r.frame == f && r.cls == c && PointOf(r) == p;
    }
  }

  /** Some input row has frame `f` and class `c`. */
  predicate Detected(rows: seq<Row>, f: int, c: int) {
    exists i :: 0 <= i < |rows| && rows[i].frame == f && rows[i].cls == c
  }

  /** A bucket is non-empty exactly when some row has its frame and class. */
  lemma BucketNonEmpty(rows: seq<Row>, f: int, c: int)
    ensures Bucket(rows, f, c) != [] <==> Detected(rows, f, c)
  {
    if Bucket(rows, f, c) != [] {
      BucketMembers(rows, f, c, Bucket(rows, f, c)[0]);
    }
    if Detected(rows, f, c) {
      var i :| 0 <= i < |rows| && rows[i].frame == f && rows[i].cls == c;
      RowInItsBucket(rows, i);
    }
  }

  /**
   * The grouping loop: one pass over the rows that appends each point to its bucket and
   * records each new frame key in insertion order.
   */
  method Group(rows: seq<Row>) returns (g: Grouped, order: seq<int>)
    ensures g == GroupRows(rows) && order == FrameOrder(rows)
    ensures forall f, c :: Get(g, f, c) == Bucket(rows, f, c)
    ensures forall f :: f in g <==> f in order
  {
    g, order := map[], [];
    var i := 0;
    while i < |rows|
      invariant 0 <= i <= |rows|
      invariant g == GroupRows(rows[..i])
      invariant order == FrameOrder(rows[..i])
    {
      var r := rows[i];
      assert rows[..i + 1][..i] == rows[..i];
      GroupRowsKeys(rows[..i]);
      if r.frame !in g {
        order := order + [r.frame];
      }
      var inner := if r.frame in g then g[r.frame] else map[];
      var points := if r.cls in inner then inner[r.cls] else [];
      g := g[r.frame := inner[r.cls := points + [PointOf(r)]]];
      i := i + 1;
    }
    assert rows[..i] == rows;
    forall f, c ensures Get(g, f, c) == Bucket(rows, f, c) {
      GroupRowsBuckets(rows, f, c);
    }
    GroupRowsKeys(rows);
  }
}
