/**
 * `class polygon`: local vertices placed at a position, with the operations
 * that read and update those fields in place.
 */
module Polygons {
  import opened Wrappers
  import opened Vectors
  import opened Sat
  import opened MtvSolver
  import opened Resolution

  /**
   * The corners `setAsBox(sizeX, sizeY)` pushes, counter-clockwise from the
   * bottom left in a y-up frame, centred on the local origin.
   */
  function Box(sizeX: real, sizeY: real): (b: seq<Vec2>)
    ensures |b| == 4
    ensures Sub(b[2], b[0]) == Vec2(sizeX, sizeY)
    ensures Add(b[0], b[2]) == Zero
    ensures b[1] == Vec2(b[2].x, b[0].y) && b[3] == Vec2(b[0].x, b[2].y)
  {
    var halfX, halfY := sizeX / 2.0, sizeY / 2.0;
    [Vec2(-halfX, -halfY), Vec2(halfX, -halfY), Vec2(halfX, halfY), Vec2(-halfX, halfY)]
  }

  /** Translating by `a` and then by `d` is translating by `a + d`. */
  lemma TranslateTwice(s: seq<Vec2>, a: Vec2, d: Vec2)
    ensures Translate(Translate(s, a), d) == Translate(s, Add(a, d))
  {
  }

  /**
   * A polygon with local vertices `local` at `position`, moved by the
   * correction `resolveFor` computes against `other`, no longer collides with
   * `other`.
   */
  lemma ResolvedApart(local: seq<Vec2>, position: Vec2, other: seq<Vec2>, sqrt: real -> real)
    requires SqrtOnEdges(Translate(local, position), sqrt) && SqrtOnEdges(other, sqrt)
    requires Correction(Translate(local, position), other, sqrt).Some?
    ensures !Collides(Translate(local, Add(position, Correction(Translate(local, position), other, sqrt).value)), other)
  {
    var d := Correction(Translate(local, position), other, sqrt).value;
    TranslateTwice(local, position, d);
    CorrectionSeparates(Translate(local, position), other, sqrt);
  }

  /** `position` moved by the translation `d`, or left where it is when there is none. */
  function Moved(position: Vec2, d: Option<Vec2>): (q: Vec2)
    ensures d.Some? ==> Sub(q, position) == d.value
    ensures d.None? ==> q == position
  {
    if d.Some? then Add(position, d.value) else position
  }

  class Polygon {
    var position: Vec2
    var vertices: seq<Vec2>
    /** Debug fields drawn by `render`; `resolveFor` writes them. */
    var clineStartX: real
    var clineEndX: real

    /** A polygon with the default member initialisers: at the origin, no vertices. */
    constructor ()
      ensures position == Zero && vertices == []
      ensures clineStartX == 0.0 && clineEndX == 0.0
    {
      position := Zero;
      vertices := [];
      clineStartX := 0.0;
      clineEndX := 0.0;
    }

    /** The world-space vertices: every local vertex moved by `position`. */
    function GlobalVertices(): seq<Vec2>
      reads this`position, this`vertices
    {
      Translate(vertices, position)
    }

    /** `polygon::getGlobalVertices`: builds the world-space vertex list vertex by vertex. */
    method GetGlobalVertices() returns (globalVertices: seq<Vec2>)
      ensures |globalVertices| == |vertices|
      ensures forall i :: 0 <= i < |vertices| ==> globalVertices[i] == Add(vertices[i], position)
      ensures globalVertices == GlobalVertices()
    {
      globalVertices := [];
      for i := 0 to |vertices|
        invariant globalVertices == Translate(vertices[..i], position)
      {
        var v := vertices[i];
        globalVertices := globalVertices + [Vec2(v.x + position.x, v.y + position.y)];
      }
      assert vertices[..|vertices|] == vertices;
    }

    /** `polygon::setAsBox`: replaces the vertices by the four corners of a centred box. */
    method SetAsBox(sizeX: real, sizeY: real)
      modifies this`vertices
      ensures vertices == Box(sizeX, sizeY)
    {
      vertices := [];
      var halfSize := Vec2(sizeX / 2.0, sizeY / 2.0);
      vertices := vertices + [Vec2(-halfSize.x, -halfSize.y)];
      vertices := vertices + [Vec2(halfSize.x, -halfSize.y)];
      vertices := vertices + [Vec2(halfSize.x, halfSize.y)];
      vertices := vertices + [Vec2(-halfSize.x, halfSize.y)];
    }

    /**
     * `polygon::collidesWith`: the Separating Axis Theorem test in both
     * directions on the world-space vertices.
     */
    method CollidesWith(p: Polygon) returns (b: bool)
      ensures b == Collides(GlobalVertices(), p.GlobalVertices())
    {
      var s1 := GetGlobalVertices();
      var s2 := p.GetGlobalVertices();
      b := CheckOverlapSAT(s1, s2);
      if b {
        b := CheckOverlapSAT(s2, s1);
      }
    }

    /**
     * `polygon::resolveFor`: sets the debug fields, then moves this polygon by
     * the correction chosen from the two one-sided searches, if there is one.
     * Nothing else changes (`p` included, unless it is this polygon); what the
     * move achieves is `ResolvedApart`.
     */
    method ResolveFor(p: Polygon, sqrt: real -> real)
      requires SqrtOnEdges(GlobalVertices(), sqrt) && SqrtOnEdges(p.GlobalVertices(), sqrt)
      modifies this`position, this`clineStartX, this`clineEndX
      ensures clineStartX == 32.0 && clineEndX == 64.0
      ensures position == Moved(old(position), Correction(old(GlobalVertices()), old(p.GlobalVertices()), sqrt))
      ensures vertices == old(vertices)
      ensures p != this ==> unchanged(p)
    {
      clineStartX := 32.0;
      clineEndX := 64.0;

      var v1 := GetGlobalVertices();
      var v2 := p.GetGlobalVertices();

      var d := CorrectionBetween(v1, v2, sqrt);
      if d.None? {
        return;
      }

      position := Add(position, d.value);
    }
  }
}
