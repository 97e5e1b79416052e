/**
 * The Separating Axis Theorem overlap test: `polygon::checkOverlapSAT` (the
 * edge normals of one vertex list as candidate axes) and the two-sided
 * `polygon::collidesWith` on world-space vertex lists.
 */
module Sat {
  import opened Vectors
  import opened Projection

  /** The index of the vertex after `i`, wrapping around: `(i + 1) % s.size()`. */
  function Next(i: nat, n: nat): nat
    requires i < n
  {
    (i + 1) % n
  }

  /** `normalBetween(s[i], s[(i + 1) % s.size()])`: the (unnormalised) normal of edge `i`. */
  function EdgeNormal(s: seq<Vec2>, i: nat): Vec2
    requires i < |s|
  {
    NormalBetween(s[i], s[Next(i, |s|)])
  }

  /** Axis `n` separates the two vertex lists: their projections do not collide. */
  predicate SeparatedOn(s1: seq<Vec2>, s2: seq<Vec2>, n: Vec2)
  {
    !ProjectionsCollide(Project(s1, n), Project(s2, n))
  }

  /** Some edge normal of `s1` separates `s1` from `s2`. */
  predicate HasSeparatingEdge(s1: seq<Vec2>, s2: seq<Vec2>)
  {
    exists i :: 0 <= i < |s1| && SeparatedOn(s1, s2, EdgeNormal(s1, i))
  }

  /**
   * `polygon::checkOverlapSAT(s1, s2)`: walks the edges of `s1` and returns
   * false at the first edge normal on which the projections do not collide.
   */
  method CheckOverlapSAT(s1: seq<Vec2>, s2: seq<Vec2>) returns (overlap: bool)
    ensures overlap <==> !HasSeparatingEdge(s1, s2)
    ensures overlap <==> forall i :: 0 <= i < |s1| ==> !SeparatedOn(s1, s2, EdgeNormal(s1, i))
  {
    for i := 0 to |s1|
      invariant forall j :: 0 <= j < i ==> !SeparatedOn(s1, s2, EdgeNormal(s1, j))
    {
      var v := s1[i];
      var nv := s1[(i + 1) % |s1|];
      var n := NormalBetween(v, nv);
      var p1 := ProjectLine(s1, n);
      var p2 := ProjectLine(s2, n);
      if !ProjectionsCollide(p1, p2) {
        assert SeparatedOn(s1, s2, EdgeNormal(s1, i));
        return false;
      }
    }
    return true;
  }

  /** `collidesWith` on the two world-space vertex lists: no edge of either separates them. */
  predicate Collides(s1: seq<Vec2>, s2: seq<Vec2>)
  {
    !HasSeparatingEdge(s1, s2) && !HasSeparatingEdge(s2, s1)
  }

  /** Collision is symmetric: `A.collidesWith(B) == B.collidesWith(A)`. */
  lemma CollidesSymmetric(s1: seq<Vec2>, s2: seq<Vec2>)
    ensures Collides(s1, s2) == Collides(s2, s1)
  {
  }

  /** Projections collide symmetrically, so an axis that separates one way separates the other. */
  lemma SeparatedOnSymmetric(s1: seq<Vec2>, s2: seq<Vec2>, n: Vec2)
    ensures SeparatedOn(s1, s2, n) == SeparatedOn(s2, s1, n)
  {
    var p1, p2 := Project(s1, n), Project(s2, n);
    if p1.Some? && p2.Some? {
      CollideSymmetric(p1.value, p2.value);
    }
  }

  /** Moving a vertex list does not change its edge normals. */
  lemma EdgeNormalTranslated(s: seq<Vec2>, d: Vec2, i: nat)
    requires i < |s|
    ensures EdgeNormal(Translate(s, d), i) == EdgeNormal(s, i)
  {
    NormalBetweenTranslated(s[i], s[Next(i, |s|)], d);
  }
}
