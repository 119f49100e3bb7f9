/**
 * Points of the image plane and the vector norm used to measure the distance
 * between two consecutive centerline points.
 *
 * The Euclidean norm (numpy's linalg.norm) has no closed form in Dafny, which has
 * no square root; it is a parameter of the operations that use it, and the lemmas
 * say which of its properties they rely on.
 */
module Geometry {

  /** A raster mask, indexed mask[row][column]. */
  type Mask = seq<seq<int>>

  /** A point (or a difference vector) in pixel coordinates: x is the column axis, y the row axis. */
  datatype Point = Point(x: real, y: real)

  /** The difference p - q, as numpy subtracts two rows of a points array. */
  function Minus(p: Point, q: Point): (d: Point)
    ensures d.x + q.x == p.x && d.y + q.y == p.y
  {
    Point(p.x - q.x, p.y - q.y)
  }

  /** A vector norm, applied to difference vectors. */
  type Norm = Point -> real

  function Abs(r: real): (a: real)
    ensures 0.0 <= a && (a == r || a == -r)
  {
    if r < 0.0 then -r else r
  }

  /** A norm is never negative: every term of a length sum is at least zero. */
  ghost predicate NonNegative(norm: Norm)
  {
    forall v :: 0.0 <= norm(v)
  }

  /** A norm is zero only on the zero vector: two distinct points are a positive distance apart. */
  ghost predicate Definite(norm: Norm)
  {
    forall v :: norm(v) == 0.0 ==> v == Point(0.0, 0.0)
  }

  /** Along a coordinate axis the Euclidean norm is the absolute coordinate difference. */
  ghost predicate ExactOnAxes(norm: Norm)
  {
    forall v: Point :: (v.x == 0.0 ==> norm(v) == Abs(v.y)) && (v.y == 0.0 ==> norm(v) == Abs(v.x))
  }

}
