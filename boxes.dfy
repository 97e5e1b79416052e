/**
 * The polygons `setAsBox` builds: their edge normals are the coordinate axes,
 * so the Separating Axis Theorem test between two boxes is the
 * axis-aligned bounding-box test.
 */
module Boxes {
  import opened Wrappers
  import opened Vectors
  import opened Projection
  import opened Sat
  import opened Polygons

  const XAxis := Vec2(1.0, 0.0)
  const YAxis := Vec2(0.0, 1.0)

  /** A box of the given size with its centre at `at`, in world space. */
  function PlacedBox(size: Vec2, at: Vec2): seq<Vec2>
  {
    Translate(Box(size.x, size.y), at)
  }

  /** The edge normals of a box: down, right, up and left, as long as the edges. */
  lemma BoxEdgeNormals(sizeX: real, sizeY: real)
    ensures EdgeNormal(Box(sizeX, sizeY), 0) == Negate(Scale(YAxis, sizeX))
    ensures EdgeNormal(Box(sizeX, sizeY), 1) == Scale(XAxis, sizeY)
    ensures EdgeNormal(Box(sizeX, sizeY), 2) == Scale(YAxis, sizeX)
    ensures EdgeNormal(Box(sizeX, sizeY), 3) == Negate(Scale(XAxis, sizeY))
  {
  }

  /** An axis and every nonzero multiple of it separate the same pairs of vertex lists. */
  lemma SeparatedOnMultiple(s1: seq<Vec2>, s2: seq<Vec2>, e: Vec2, c: real)
    requires c > 0.0
    ensures SeparatedOn(s1, s2, Scale(e, c)) == SeparatedOn(s1, s2, e)
    ensures SeparatedOn(s1, s2, Negate(Scale(e, c))) == SeparatedOn(s1, s2, e)
  {
    ProjectScaled(s1, e, c);
    ProjectScaled(s2, e, c);
    CollideScaled(Project(s1, e), Project(s2, e), c);
    ProjectNegated(s1, Scale(e, c));
    ProjectNegated(s2, Scale(e, c));
    CollideMirrored(Project(s1, Scale(e, c)), Project(s2, Scale(e, c)));
  }

  /** The projection loop over four vertices, written out. */
  lemma ProjectFour(s: seq<Vec2>, n: Vec2)
    requires |s| == 4
    ensures Project(s, n) ==
      Include(Include(Include(Include(None, Dot(s[0], n)), Dot(s[1], n)), Dot(s[2], n)), Dot(s[3], n))
  {
    ProjectLast(s, n);
    ProjectLast(s[..3], n);
    assert s[..3][..2] == s[..2];
    ProjectLast(s[..2], n);
    assert s[..2][..1] == s[..1];
    ProjectLast(s[..1], n);
    assert s[..1][..0] == [];
  }

  /** A placed box projects onto the coordinate axes as its extent around its centre. */
  lemma BoxProjections(size: Vec2, at: Vec2)
    requires size.x >= 0.0 && size.y >= 0.0
    ensures Project(PlacedBox(size, at), XAxis) == Some(ProjectedLine(at.x - size.x / 2.0, at.x + size.x / 2.0))
    ensures Project(PlacedBox(size, at), YAxis) == Some(ProjectedLine(at.y - size.y / 2.0, at.y + size.y / 2.0))
  {
    ProjectFour(PlacedBox(size, at), XAxis);
    ProjectFour(PlacedBox(size, at), YAxis);
  }

  /** An edge of a placed box separates exactly when the matching coordinate axis does. */
  lemma BoxEdgeSeparates(size: Vec2, at: Vec2, other: seq<Vec2>, i: nat)
    requires size.x > 0.0 && size.y > 0.0 && i < 4
    ensures var b := PlacedBox(size, at);
      SeparatedOn(b, other, EdgeNormal(b, i)) == SeparatedOn(b, other, if i % 2 == 0 then YAxis else XAxis)
  {
    var b := PlacedBox(size, at);
    EdgeNormalTranslated(Box(size.x, size.y), at, i);
    BoxEdgeNormals(size.x, size.y);
    if i % 2 == 0 {
      SeparatedOnMultiple(b, other, YAxis, size.x);
    } else {
      SeparatedOnMultiple(b, other, XAxis, size.y);
    }
  }

  /** Some edge of a placed box separates it from `other` exactly when a coordinate axis does. */
  lemma BoxHasSeparatingEdge(size: Vec2, at: Vec2, other: seq<Vec2>)
    requires size.x > 0.0 && size.y > 0.0
    ensures var b := PlacedBox(size, at);
      HasSeparatingEdge(b, other) <==> SeparatedOn(b, other, XAxis) || SeparatedOn(b, other, YAxis)
  {
    var b := PlacedBox(size, at);
    forall i | 0 <= i < 4
      ensures SeparatedOn(b, other, EdgeNormal(b, i)) == SeparatedOn(b, other, if i % 2 == 0 then YAxis else XAxis)
    {
      BoxEdgeSeparates(size, at, other, i);
    }
    if SeparatedOn(b, other, XAxis) {
      assert SeparatedOn(b, other, EdgeNormal(b, 1));
    }
    if SeparatedOn(b, other, YAxis) {
      assert SeparatedOn(b, other, EdgeNormal(b, 0));
    }
  }

  /**
   * Two boxes of positive size collide exactly when their centres are closer
   * than the sum of their half sizes along both axes; boxes that only touch
   * do not collide.
   */
  lemma BoxesCollide(size1: Vec2, at1: Vec2, size2: Vec2, at2: Vec2)
    requires size1.x > 0.0 && size1.y > 0.0 && size2.x > 0.0 && size2.y > 0.0
    ensures Collides(PlacedBox(size1, at1), PlacedBox(size2, at2)) <==>
      Abs(at1.x - at2.x) < (size1.x + size2.x) / 2.0 && Abs(at1.y - at2.y) < (size1.y + size2.y) / 2.0
  {
    var b1, b2 := PlacedBox(size1, at1), PlacedBox(size2, at2);
    BoxHasSeparatingEdge(size1, at1, b2);
    BoxHasSeparatingEdge(size2, at2, b1);
    SeparatedOnSymmetric(b1, b2, XAxis);
    SeparatedOnSymmetric(b1, b2, YAxis);
    BoxProjections(size1, at1);
    BoxProjections(size2, at2);
  }

  /** Boxes of half size 2 centred at (0, 0) and (10, 10) do not collide. */
  lemma DistantBoxesApart()
    ensures !Collides(PlacedBox(Vec2(4.0, 4.0), Zero), PlacedBox(Vec2(4.0, 4.0), Vec2(10.0, 10.0)))
  {
    BoxesCollide(Vec2(4.0, 4.0), Zero, Vec2(4.0, 4.0), Vec2(10.0, 10.0));
  }

  /** Unit squares centred at (0, 0) and (1, 0) share an edge and do not collide. */
  lemma TouchingSquaresApart()
    ensures !Collides(PlacedBox(Vec2(1.0, 1.0), Zero), PlacedBox(Vec2(1.0, 1.0), Vec2(1.0, 0.0)))
  {
    BoxesCollide(Vec2(1.0, 1.0), Zero, Vec2(1.0, 1.0), Vec2(1.0, 0.0));
  }

  /** Boxes of half size 1 centred at (0, 0) and (1, 0) collide. */
  lemma OverlappingBoxesCollide()
    ensures Collides(PlacedBox(Vec2(2.0, 2.0), Zero), PlacedBox(Vec2(2.0, 2.0), Vec2(1.0, 0.0)))
  {
    BoxesCollide(Vec2(2.0, 2.0), Zero, Vec2(2.0, 2.0), Vec2(1.0, 0.0));
  }
}
