/**
 * Conversion between pixel coordinates (top-left origin, as the detector writes them) and the
 * movie-clip marker coordinates of the editor (each axis divided by the clip size, y flipped
 * so that the origin is bottom-left).
 */
module Markers {
  import opened Common

  /** A marker position (`marker.co`) in normalised clip coordinates. */
  datatype Marker = Marker(u: real, v: real)

  /** Import: `co = (x / width, 1 - y / height)`. */
  function ToMarker(p: Point, width: int, height: int): (m: Marker)
    requires width > 0 && height > 0
    ensures 0.0 <= p.x <= width as real && 0.0 <= p.y <= height as real ==>
              0.0 <= m.u <= 1.0 && 0.0 <= m.v <= 1.0
    ensures p.y == 0.0 ==> m.v == 1.0
  {
    Marker(p.x / width as real, 1.0 - p.y / height as real)
  }

  /** Export: `x = co[0] * width`, `y = (1 - co[1]) * height`. */
  function FromMarker(m: Marker, width: int, height: int): (p: Point)
    requires width > 0 && height > 0
    ensures 0.0 <= m.u <= 1.0 && 0.0 <= m.v <= 1.0 ==>
              0.0 <= p.x <= width as real && 0.0 <= p.y <= height as real
    ensures m.v == 1.0 ==> p.y == 0.0
  {
    Point(m.u * width as real, (1.0 - m.v) * height as real)
  }

  /** Exporting an imported marker gives back the pixel coordinate that was imported. */
  lemma ExportAfterImport(p: Point, width: int, height: int)
    requires width > 0 && height > 0
    ensures FromMarker(ToMarker(p, width, height), width, height) == p
  {
    var w, h := width as real, height as real;
    assert (p.x / w) * w == p.x;
    assert (1.0 - (1.0 - p.y / h)) * h == p.y;
  }

  /** Importing an exported marker gives back the marker. */
  lemma ImportAfterExport(m: Marker, width: int, height: int)
    requires width > 0 && height > 0
    ensures ToMarker(FromMarker(m, width, height), width, height) == m
  {
    var w, h := width as real, height as real;
    var d := 1.0 - m.v;
    assert (m.u * w) / w == m.u;
    assert (d * h) / h == d;
  }
}
