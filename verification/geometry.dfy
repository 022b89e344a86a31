/** Integer pixel points (cv::Point) and real 2-D vectors (cv::Point2f), with
    the few operations the effects use on them. */
module Geometry {

  /** A pixel position: `x` is the column, `y` the row. */
  datatype Point = Point(x: int, y: int)

  /** A floating-point 2-D vector, modelled over the reals. */
  datatype Vec2 = Vec2(x: real, y: real)

  const Origin: Point := Point(0, 0)

  function Sub(a: Point, b: Point): Point {
    Point(a.x - b.x, a.y - b.y)
  }

  /** Squared Euclidean distance between two pixels. */
  function DistSq(a: Point, b: Point): (d: int)
    ensures d >= 0
    ensures d == 0 <==> a == b
  {
    (a.x - b.x) * (a.x - b.x) + (a.y - b.y) * (a.y - b.y)
  }

  function ToVec(p: Point): Vec2 {
    Vec2(p.x as real, p.y as real)
  }

  function Add(a: Vec2, b: Vec2): Vec2 {
    Vec2(a.x + b.x, a.y + b.y)
  }

  function Scale(k: real, v: Vec2): Vec2 {
    Vec2(k * v.x, k * v.y)
  }
}
