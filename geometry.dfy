/** Pixel positions of the screensaver: tile centres, the hunter's interpolation
    between two centres, and the capture test of `Debugger.consume`, on exact reals. */
module Geometry {
  import opened Grid

  datatype Point = Point(x: real, y: real)

  /** `getTileCenter(col, row)` and `Bug.updatePosition`: the middle of the tile. */
  function TileCenter(col: int, row: int, tileSize: real): (p: Point)
    ensures tileSize > 0.0 ==> col as real * tileSize < p.x < (col + 1) as real * tileSize
    ensures tileSize > 0.0 ==> row as real * tileSize < p.y < (row + 1) as real * tileSize
    ensures p.x - col as real * tileSize == tileSize / 2.0 && p.y - row as real * tileSize == tileSize / 2.0
  {
    Point((col as real + 0.5) * tileSize, (row as real + 0.5) * tileSize)
  }

  /** The point a fraction `t` of the way from `a` to `b` (`updatePosition`). */
  function Lerp(a: Point, b: Point, t: real): (p: Point)
    ensures t == 0.0 ==> p == a
    ensures t == 1.0 ==> p == b
    ensures Dist2(a, p) == t * t * Dist2(a, b)
  {
    var p := Point(a.x + (b.x - a.x) * t, a.y + (b.y - a.y) * t);
    assert p.x - a.x == (b.x - a.x) * t && p.y - a.y == (b.y - a.y) * t;
    p
  }

  /** Squared Euclidean distance. */
  function Dist2(a: Point, b: Point): (d: real)
    ensures d >= 0.0
  {
    (b.x - a.x) * (b.x - a.x) + (b.y - a.y) * (b.y - a.y)
  }

  /** The capture radius of `consume`: 45% of a tile, so less than the half tile that
      separates a tile centre from the edge of its tile. */
  function CaptureRadius(tileSize: real): (r: real)
    ensures tileSize > 0.0 ==> 0.0 < r < tileSize / 2.0
  {
    tileSize * 0.45
  }

  /** `Math.sqrt(dx * dx + dy * dy) < radius`, without the square root: the distance is
      never negative, so nothing is within a radius that is not positive. */
  predicate Within(a: Point, b: Point, radius: real)
  {
    radius > 0.0 && Dist2(a, b) < radius * radius
  }

  /** The squared comparison agrees with comparing the true distance `d`. */
  lemma WithinIsDistance(a: Point, b: Point, radius: real, d: real)
    requires d >= 0.0 && d * d == Dist2(a, b)
    ensures Within(a, b, radius) <==> d < radius
  {
    if d < radius {
      SquareMonotone(d, radius);
    } else if radius > 0.0 {
      SquareMonotone(radius, d);
    }
  }

  /** Squaring is monotone on non-negative reals. */
  lemma SquareMonotone(x: real, y: real)
    requires 0.0 <= x <= y
    ensures x * x <= y * y
    ensures x < y ==> x * x < y * y
  {
    var e := y - x;
    assert y * y == (x + e) * (x + e) == x * x + 2.0 * x * e + e * e;
    assert x * e >= 0.0;
    assert x < y ==> e * e > 0.0;
  }

  /** Multiplying by a positive factor keeps a strict order, both ways. */
  lemma ScaleStrict(x: real, y: real, k: real)
    requires k > 0.0
    ensures x < y <==> x * k < y * k
  {
    assert y * k - x * k == (y - x) * k;
    if x < y {
      assert (y - x) * k > 0.0;
    } else {
      assert (x - y) * k >= 0.0;
    }
  }

  /** Adjacent tile centres are one tile apart. */
  lemma StepLength(from: Cell, to: Cell, tileSize: real)
    requires Adjacent(from, to)
    ensures Dist2(TileCenter(from.col, from.row, tileSize), TileCenter(to.col, to.row, tileSize)) == tileSize * tileSize
  {
    var start := TileCenter(from.col, from.row, tileSize);
    var end := TileCenter(to.col, to.row, tileSize);
    assert end.x - start.x == (to.col - from.col) as real * tileSize;
    assert end.y - start.y == (to.row - from.row) as real * tileSize;
  }

  /** A bug sitting on the centre of the tile the hunter leaves is caught exactly while
      the hunter has covered less than 45% of its step to an adjacent tile. */
  lemma CapturedWhileLeaving(from: Cell, to: Cell, tileSize: real, progress: real)
    requires tileSize > 0.0 && 0.0 <= progress && Adjacent(from, to)
    ensures var start := TileCenter(from.col, from.row, tileSize);
      var at := Lerp(start, TileCenter(to.col, to.row, tileSize), progress);
      Within(start, at, CaptureRadius(tileSize)) <==> progress < 0.45
  {
    var start := TileCenter(from.col, from.row, tileSize);
    var end := TileCenter(to.col, to.row, tileSize);
    var at := Lerp(start, end, progress);
    StepLength(from, to, tileSize);
    var d := progress * tileSize;
    assert d >= 0.0;
    assert d * d == Dist2(start, at) by {
      assert Dist2(start, at) == progress * progress * (tileSize * tileSize);
      assert d * d == progress * progress * (tileSize * tileSize);
    }
    WithinIsDistance(start, at, CaptureRadius(tileSize), d);
    ScaleStrict(progress, 0.45, tileSize);
  }
}
