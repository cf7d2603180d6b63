/**
 Points and 2D affine matrices, with the three gl-matrix operations the
 vertex extractor relies on: `mat2d.create`, `mat2d.multiply` and
 `vec2.transformMat2d`. Coordinates are exact reals.
 */
module Geometry {

  datatype Vec2 = Vec2(x: real, y: real)

  /** A 2x3 affine matrix stored as gl-matrix stores it, `[a, b, c, d, tx, ty]`:
      the point (x, y) maps to (a*x + c*y + tx, b*x + d*y + ty). */
  datatype Mat2d = Mat2d(a: real, b: real, c: real, d: real, tx: real, ty: real)

  /** `vec2.transformMat2d(out, p, m)`. */
  function Apply(m: Mat2d, p: Vec2): Vec2
  {
    Vec2(m.a * p.x + m.c * p.y + m.tx, m.b * p.x + m.d * p.y + m.ty)
  }

  /** `mat2d.create()`: the identity, which moves no point and is neutral for multiplication. */
  function Create(): (m: Mat2d)
    ensures forall p :: Apply(m, p) == p
    ensures forall n :: Multiply(m, n) == n && Multiply(n, m) == n
  {
    Mat2d(1.0, 0.0, 0.0, 1.0, 0.0, 0.0)
  }

  /** `mat2d.multiply(out, m, n)`: the product m x n, which applies `n` first and then `m`. */
  function Multiply(m: Mat2d, n: Mat2d): (r: Mat2d)
    ensures forall p :: Apply(r, p) == Apply(m, Apply(n, p))
  {
    Mat2d(m.a * n.a + m.c * n.b, m.b * n.a + m.d * n.b,
          m.a * n.c + m.c * n.d, m.b * n.c + m.d * n.d,
          m.a * n.tx + m.c * n.ty + m.tx, m.b * n.tx + m.d * n.ty + m.ty)
  }

  /** A matrix is determined by where it sends the origin and the two unit points. */
  lemma SameAction(l: Mat2d, r: Mat2d)
    requires Apply(l, Vec2(0.0, 0.0)) == Apply(r, Vec2(0.0, 0.0))
    requires Apply(l, Vec2(1.0, 0.0)) == Apply(r, Vec2(1.0, 0.0))
    requires Apply(l, Vec2(0.0, 1.0)) == Apply(r, Vec2(0.0, 1.0))
    ensures l == r
  {
  }

  /** Matrix multiplication is associative, so a chain of transforms composes in any grouping. */
  lemma MultiplyAssociative(m: Mat2d, n: Mat2d, o: Mat2d)
    ensures Multiply(Multiply(m, n), o) == Multiply(m, Multiply(n, o))
  {
    var l := Multiply(Multiply(m, n), o);
    var r := Multiply(m, Multiply(n, o));
    forall p | p in {Vec2(0.0, 0.0), Vec2(1.0, 0.0), Vec2(0.0, 1.0)}
      ensures Apply(l, p) == Apply(r, p)
    {
      assert Apply(l, p) == Apply(m, Apply(n, Apply(o, p)));
    }
    SameAction(l, r);
  }
}
