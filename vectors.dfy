/**
 * The 2-D vector primitive of the collision core (`vec2`, `polygon::dot`,
 * `polygon::normalBetween`), over exact reals instead of `float`.
 */
module Vectors {

  /** `vec2 { float x; float y; }` */
  datatype Vec2 = Vec2(x: real, y: real)

  const Zero := Vec2(0.0, 0.0)

  /**
   * The product of two reals. Products of two variables are written through
   * this function so that the solver identifies equal products by congruence.
   */
  function Mul(a: real, b: real): real { a * b }

  function Add(a: Vec2, b: Vec2): Vec2 { Vec2(a.x + b.x, a.y + b.y) }

  function Sub(a: Vec2, b: Vec2): Vec2 { Vec2(a.x - b.x, a.y - b.y) }

  /** `v * c`, component by component, as `position.x += normal.x * magnitude` does. */
  function Scale(v: Vec2, c: real): Vec2 { Vec2(Mul(v.x, c), Mul(v.y, c)) }

  /** The flip `normal.x *= -1; normal.y *= -1` applied to the second one-sided result. */
  function Negate(v: Vec2): (r: Vec2)
    ensures Add(v, r) == Zero
  {
    Vec2(v.x * -1.0, v.y * -1.0)
  }

  /** `polygon::dot`. */
  function Dot(a: Vec2, b: Vec2): real { Mul(a.x, b.x) + Mul(a.y, b.y) }

  /** `diffX * diffX + diffY * diffY`, the radicand of the edge length. */
  function SquaredLength(v: Vec2): real { Mul(v.x, v.x) + Mul(v.y, v.y) }

  /**
   * `polygon::normalBetween`: a perpendicular of the edge v1 -> v2 (not
   * normalised); it is the zero vector exactly for a degenerate edge and is as
   * long as the edge.
   */
  function NormalBetween(v1: Vec2, v2: Vec2): (n: Vec2)
    ensures Dot(n, Sub(v2, v1)) == 0.0
    ensures n == Zero <==> v1 == v2
    ensures SquaredLength(n) == SquaredLength(Sub(v2, v1))
  {
    Vec2(-(v1.y - v2.y), v1.x - v2.x)
  }

  /** Translating both ends of an edge leaves its normal unchanged. */
  lemma NormalBetweenTranslated(v1: Vec2, v2: Vec2, d: Vec2)
    ensures NormalBetween(Add(v1, d), Add(v2, d)) == NormalBetween(v1, v2)
    ensures Sub(Add(v2, d), Add(v1, d)) == Sub(v2, v1)
  {
  }

  /** The dot product is linear in its first argument. */
  lemma DotAdd(v: Vec2, d: Vec2, n: Vec2)
    ensures Dot(Add(v, d), n) == Dot(v, n) + Dot(d, n)
  {
  }

  /** ... and homogeneous in its second. */
  lemma DotScale(v: Vec2, n: Vec2, c: real)
    ensures Dot(v, Scale(n, c)) == Mul(Dot(v, n), c)
  {
  }

  /** The dot product is symmetric. */
  lemma DotCommutes(a: Vec2, b: Vec2)
    ensures Dot(a, b) == Dot(b, a)
  {
  }

  /** Negating one side negates the dot product. */
  lemma DotNegate(v: Vec2, n: Vec2)
    ensures Dot(v, Negate(n)) == -Dot(v, n)
  {
    assert Mul(v.x, n.x * -1.0) == -Mul(v.x, n.x);
    assert Mul(v.y, n.y * -1.0) == -Mul(v.y, n.y);
  }

  /** `getGlobalVertices` as a value: every local vertex moved by `d`. */
  function Translate(s: seq<Vec2>, d: Vec2): seq<Vec2>
  {
    seq(|s|, i requires 0 <= i < |s| => Add(s[i], d))
  }

  function Min(a: real, b: real): real { if a < b then a else b }

  function Max(a: real, b: real): real { if a < b then b else a }

  function Abs(a: real): real { if a < 0.0 then -a else a }
}
