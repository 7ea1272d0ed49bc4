/** Points in space and the rigid transforms applied to whole frames. */
module Geometry {

  type Point = (real, real, real)

  /** One coordinate set: a point per atom. */
  type Frame = seq<Point>

  const Origin: Point := (0.0, 0.0, 0.0)

  function Add(p: Point, q: Point): Point
  {
    (p.0 + q.0, p.1 + q.1, p.2 + q.2)
  }

  function Sub(p: Point, q: Point): Point
  {
    (p.0 - q.0, p.1 - q.1, p.2 - q.2)
  }

  function Scale(p: Point, s: real): Point
  {
    (p.0 * s, p.1 * s, p.2 * s)
  }

  function Div(p: Point, d: real): Point
    requires d != 0.0
  {
    (p.0 / d, p.1 / d, p.2 / d)
  }

  /** Componentwise square, as numpy's `** 2` on an (n, 3) array. */
  function Square(p: Point): Point
  {
    (p.0 * p.0, p.1 * p.1, p.2 * p.2)
  }

  /** Sum of the x, y and z components. */
  function Total(p: Point): real
  {
    p.0 + p.1 + p.2
  }

  /** A rotation (given by its three rows) followed by a translation. */
  datatype Rigid = Rigid(row0: Point, row1: Point, row2: Point, shift: Point)

  function Dot(p: Point, q: Point): real
  {
    p.0 * q.0 + p.1 * q.1 + p.2 * q.2
  }

  /** `tvec + dot(p, rmat.T)` for one point `p`. */
  function Apply(t: Rigid, p: Point): Point
  {
    Add((Dot(t.row0, p), Dot(t.row1, p), Dot(t.row2, p)), t.shift)
  }

  /** The transform applied to every atom of a frame. */
  function Transformed(t: Rigid, f: Frame): (r: Frame)
    ensures |r| == |f|
    ensures forall a :: 0 <= a < |f| ==> r[a] == Apply(t, f[a])
  {
    seq(|f|, a requires 0 <= a < |f| => Apply(t, f[a]))
  }
}
