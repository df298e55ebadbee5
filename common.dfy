/** Values shared by every stage: parsed CSV rows, points and small real helpers. */
module Common {
  import StableSort

  datatype Option<T> = None | Some(value: T)

  /** A 2D position in pixel space (top-left origin). */
  datatype Point = Point(x: real, y: real)

  /** One CSV row once parsed: the columns Frame, ID, Class, X and Y. */
  datatype Row = Row(frame: int, id: string, cls: int, x: real, y: real)

  /** The `(Frame, Class)` sort key of the processed rows. */
  function FrameClassKey(r: Row): StableSort.SortKey {
    StableSort.SortKey(r.frame, r.cls)
  }

  /** Sorting by frame alone (`key=lambda x: int(x['Frame'])`). */
  function FrameKey(r: Row): StableSort.SortKey {
    StableSort.SortKey(r.frame, 0)
  }

  function PointOf(r: Row): Point {
    Point(r.x, r.y)
  }

  function Abs(v: real): (r: real)
    ensures r >= 0.0 && (r == v || r == -v)
  {
    if v < 0.0 then -v else v
  }

  /** Squared Euclidean distance; it orders candidates exactly as the distance does. */
  function SqDist(p: Point, q: Point): (d: real)
    ensures d >= 0.0
  {
    (p.x - q.x) * (p.x - q.x) + (p.y - q.y) * (p.y - q.y)
  }

  function Points(rows: seq<Row>): (ps: seq<Point>)
    ensures |ps| == |rows|
    ensures forall i :: 0 <= i < |rows| ==> ps[i] == PointOf(rows[i])
  {
    seq(|rows|, i requires 0 <= i < |rows| => PointOf(rows[i]))
  }
}
