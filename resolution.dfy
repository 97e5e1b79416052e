/**
 * The choice `polygon::resolveFor` makes between the two one-sided searches,
 * and what the chosen correction achieves: the mover, moved by it, no longer
 * collides with the collider.
 */
module Resolution {
  import opened Wrappers
  import opened Vectors
  import opened Projection
  import opened Sat
  import opened MtvSolver

  /** `r2->normal.x *= -1; r2->normal.y *= -1`: the same magnitude along the opposite normal. */
  function Flip(m: Mtv): (f: Mtv)
    ensures f.magnitude == m.magnitude && Add(m.normal, f.normal) == Zero
  {
    Mtv(Negate(m.normal), m.magnitude)
  }

  /**
   * The comparison in `resolveFor` between the mover-side result `r1` and the
   * collider-side result `r2`: nothing when either is absent (nullptr);
   * otherwise the flipped `r2` when its magnitude is strictly smaller in
   * absolute value, else `r1`.
   */
  function Choose(r1: Option<Mtv>, r2: Option<Mtv>): (c: Option<Mtv>)
    ensures c.Some? <==> r1.Some? && r2.Some?
    ensures c.Some? ==> c == r1 || c == Some(Flip(r2.value))
  {
    if r1.None? || r2.None? then None
    else
      var flipped := Flip(r2.value);
      if AbsLess(flipped.magnitude, r1.value.magnitude) then Some(flipped) else r1
  }

  /**
   * Which present result is chosen: the flipped `r2` exactly when its
   * magnitude is strictly smaller in absolute value than `r1`'s, so `r1` wins
   * a tie between finite magnitudes of equal absolute value and a tie between
   * two INFINITY magnitudes.
   */
  lemma ChooseRule(r1: Option<Mtv>, r2: Option<Mtv>)
    requires r1.Some? && r2.Some?
    ensures AbsLess(r2.value.magnitude, r1.value.magnitude) ==> Choose(r1, r2) == Some(Flip(r2.value))
    ensures !AbsLess(r2.value.magnitude, r1.value.magnitude) ==> Choose(r1, r2) == r1
    ensures r1.value.magnitude.Finite? && r2.value.magnitude.Finite?
      && Abs(r1.value.magnitude.value) == Abs(r2.value.magnitude.value)
      ==> Choose(r1, r2) == r1
    ensures r1.value.magnitude.Infinity? && r2.value.magnitude.Infinity? ==> Choose(r1, r2) == r1
  {
  }

  /**
   * The result `resolveFor` settles on for the world-space vertex lists
   * `mover` (its own) and `collider` (the other polygon's).
   */
  function ChosenMtv(mover: seq<Vec2>, collider: seq<Vec2>, sqrt: real -> real): Option<Mtv>
    requires SqrtOnEdges(mover, sqrt) && SqrtOnEdges(collider, sqrt)
  {
    Choose(MtvOf(mover, collider, sqrt), MtvOf(collider, mover, sqrt))
  }

  /**
   * The translation `resolveFor` adds to the position for a chosen result:
   * `normal * magnitude`, or nothing when there is no result or its magnitude
   * is INFINITY.
   */
  function Translation(c: Option<Mtv>): (d: Option<Vec2>)
    ensures d.Some? <==> c.Some? && c.value.magnitude.Finite?
  {
    if c.None? || c.value.magnitude.Infinity? then None
    else Some(Scale(c.value.normal, c.value.magnitude.value))
  }

  /** The translation `resolveFor` applies to the mover. */
  function Correction(mover: seq<Vec2>, collider: seq<Vec2>, sqrt: real -> real): Option<Vec2>
    requires SqrtOnEdges(mover, sqrt) && SqrtOnEdges(collider, sqrt)
  {
    Translation(ChosenMtv(mover, collider, sqrt))
  }

  /**
   * The end of `polygon::resolveFor` once both one-sided results `r1` and `r2`
   * are present: the flip of the second normal, the choice, the INFINITY
   * check, and the translation `normal * magnitude`.
   */
  method PickCorrection(r1: Mtv, r2: Mtv) returns (d: Option<Vec2>)
    ensures d == Translation(Choose(Some(r1), Some(r2)))
  {
    var flipped := Mtv(Vec2(r2.normal.x * -1.0, r2.normal.y * -1.0), r2.magnitude);

    var min: Mtv;
    if AbsLess(flipped.magnitude, r1.magnitude) {
      min := flipped;
    } else {
      min := r1;
    }

    if min.magnitude.Infinity? {
      return None;
    }

    return Some(Vec2(Mul(min.normal.x, min.magnitude.value), Mul(min.normal.y, min.magnitude.value)));
  }

  /**
   * The part of `polygon::resolveFor` between fetching the world-space
   * vertices and updating the position: both one-sided searches, stopping at
   * the first absent one, then the choice between them.
   */
  method CorrectionBetween(v1: seq<Vec2>, v2: seq<Vec2>, sqrt: real -> real) returns (d: Option<Vec2>)
    requires SqrtOnEdges(v1, sqrt) && SqrtOnEdges(v2, sqrt)
    ensures d == Correction(v1, v2, sqrt)
  {
    var r1 := MtvBetween(v1, v2, sqrt);
    if r1.None? {
      return None;
    }

    var r2 := MtvBetween(v2, v1, sqrt);
    if r2.None? {
      return None;
    }

    d := PickCorrection(r1.value, r2.value);
  }

  /**
   * Along a unit edge normal the projections collide exactly when they collide
   * along the edge's `normalBetween` normal, which `checkOverlapSAT` uses.
   */
  lemma SeparatedOnUnitNormal(s1: seq<Vec2>, s2: seq<Vec2>, poly: seq<Vec2>, i: nat, sqrt: real -> real)
    requires i < |poly| && SqrtOnEdges(poly, sqrt)
    ensures SeparatedOn(s1, s2, UnitNormal(poly, i, sqrt)) == SeparatedOn(s1, s2, EdgeNormal(poly, i))
  {
    var n := EdgeNormal(poly, i);
    var c := 1.0 / EdgeLength(poly, i, sqrt);
    UnitNormalIsUnit(poly, i, sqrt);
    ProjectScaled(s1, n, c);
    ProjectScaled(s2, n, c);
    CollideScaled(Project(s1, n), Project(s2, n), c);
  }

  /** Moving along a unit vector `u` by `m` shifts every projection onto `u` by `m`. */
  lemma ProjectAfterMove(s: seq<Vec2>, u: Vec2, m: real)
    requires Dot(u, u) == 1.0
    ensures Project(Translate(s, Scale(u, m)), u) == ShiftProjection(Project(s, u), m)
    ensures Project(Translate(s, Scale(Negate(u), m)), u) == ShiftProjection(Project(s, u), -m)
  {
    ProjectTranslated(s, Scale(u, m), u);
    DotCommutes(Scale(u, m), u);
    DotScale(u, u, m);
    ProjectTranslated(s, Scale(Negate(u), m), u);
    DotCommutes(Scale(Negate(u), m), u);
    DotScale(u, Negate(u), m);
    DotNegate(u, u);
    assert Mul(-1.0, m) == -m;
  }

  /**
   * Moving the mover by the mover-side result separates it from the collider
   * along the collider edge that result came from.
   */
  lemma MoverSideSeparates(mover: seq<Vec2>, collider: seq<Vec2>, sqrt: real -> real, m: real, u: Vec2)
    requires SqrtOnEdges(collider, sqrt)
    requires MtvOf(mover, collider, sqrt) == Some(Mtv(u, Finite(m)))
    ensures HasSeparatingEdge(collider, Translate(mover, Scale(u, m)))
  {
    assert |collider| > 0;
    var k := MtvOfMinimal(mover, collider, sqrt);
    var moved := Translate(mover, Scale(u, m));
    UnitNormalIsUnit(collider, k, sqrt);
    ProjectAfterMove(mover, u, m);
    assert !ProjectionsCollide(Project(moved, u), Project(collider, u));
    SeparatedOnUnitNormal(moved, collider, collider, k, sqrt);
    SeparatedOnSymmetric(moved, collider, EdgeNormal(collider, k));
    assert SeparatedOn(collider, moved, EdgeNormal(collider, k));
  }

  /**
   * Moving the mover by the flipped collider-side result separates it from the
   * collider along the mover edge that result came from.
   */
  lemma ColliderSideSeparates(mover: seq<Vec2>, collider: seq<Vec2>, sqrt: real -> real, m: real, u: Vec2)
    requires SqrtOnEdges(mover, sqrt)
    requires MtvOf(collider, mover, sqrt) == Some(Mtv(u, Finite(m)))
    ensures HasSeparatingEdge(Translate(mover, Scale(Negate(u), m)), collider)
  {
    assert |mover| > 0;
    var k := MtvOfMinimal(collider, mover, sqrt);
    var moved := Translate(mover, Scale(Negate(u), m));
    UnitNormalIsUnit(mover, k, sqrt);
    ProjectAfterMove(mover, u, m);
    var pc, pm := Project(collider, u).value, Project(mover, u).value;
    CollideShift(pc, pm, m);
    assert !ProjectionsCollide(Project(collider, u), Project(moved, u));
    SeparatedOnUnitNormal(collider, moved, mover, k, sqrt);
    SeparatedOnSymmetric(collider, moved, EdgeNormal(mover, k));
    EdgeNormalTranslated(mover, Scale(Negate(u), m), k);
    assert SeparatedOn(moved, collider, EdgeNormal(moved, k));
  }

  /**
   * The point of `resolveFor`: once the correction is applied, the mover no
   * longer collides with the collider.
   */
  lemma CorrectionSeparates(mover: seq<Vec2>, collider: seq<Vec2>, sqrt: real -> real)
    requires SqrtOnEdges(mover, sqrt) && SqrtOnEdges(collider, sqrt)
    requires Correction(mover, collider, sqrt).Some?
    ensures !Collides(Translate(mover, Correction(mover, collider, sqrt).value), collider)
  {
    var r1 := MtvOf(mover, collider, sqrt).value;
    var r2 := MtvOf(collider, mover, sqrt).value;
    if AbsLess(Flip(r2).magnitude, r1.magnitude) {
      ColliderSideSeparates(mover, collider, sqrt, r2.magnitude.value, r2.normal);
    } else {
      MoverSideSeparates(mover, collider, sqrt, r1.magnitude.value, r1.normal);
    }
  }

  /**
   * When no edge of `collider` separates it from `mover`, every collider edge
   * gives a nonzero response.
   */
  lemma OverlapGivesResponses(mover: seq<Vec2>, collider: seq<Vec2>, sqrt: real -> real)
    requires SqrtOnEdges(collider, sqrt) && !HasSeparatingEdge(collider, mover)
    ensures forall i :: 0 <= i < |collider| ==>
      AxisResponse(mover, collider, i, sqrt).Some? && AxisResponse(mover, collider, i, sqrt).value != 0.0
  {
    forall i | 0 <= i < |collider|
      ensures AxisResponse(mover, collider, i, sqrt).Some? && AxisResponse(mover, collider, i, sqrt).value != 0.0
    {
      var u := UnitNormal(collider, i, sqrt);
      assert !SeparatedOn(collider, mover, EdgeNormal(collider, i));
      SeparatedOnSymmetric(collider, mover, EdgeNormal(collider, i));
      SeparatedOnUnitNormal(mover, collider, collider, i, sqrt);
      CollidingGetsResponse(Project(mover, u).value, Project(collider, u).value);
    }
  }

  /** A one-sided search between overlapping lists finds a finite, nonzero response along a unit normal. */
  lemma OverlapGivesMtv(mover: seq<Vec2>, collider: seq<Vec2>, sqrt: real -> real)
    requires SqrtOnEdges(collider, sqrt) && |collider| > 0 && !HasSeparatingEdge(collider, mover)
    ensures MtvOf(mover, collider, sqrt).Some?
    ensures MtvOf(mover, collider, sqrt).value.magnitude.Finite?
    ensures MtvOf(mover, collider, sqrt).value.magnitude.value != 0.0
    ensures Dot(MtvOf(mover, collider, sqrt).value.normal, MtvOf(mover, collider, sqrt).value.normal) == 1.0
  {
    OverlapGivesResponses(mover, collider, sqrt);
    assert AllAxesRespond(mover, collider, sqrt);
    var k := MtvOfMinimal(mover, collider, sqrt);
    UnitNormalIsUnit(collider, k, sqrt);
  }

  /** A nonzero multiple of a vector of length one is not the zero vector. */
  lemma ScaledUnitIsNonZero(u: Vec2, m: real)
    requires Dot(u, u) == 1.0 && m != 0.0
    ensures Scale(u, m) != Zero
  {
  }

  /**
   * Choosing between two finite results along normals of length one gives a
   * finite result, along a normal of length one, whose magnitude is one of
   * the two and no larger in absolute value than either.
   */
  lemma ChooseBetweenUnits(o1: Option<Mtv>, o2: Option<Mtv>)
    requires o1.Some? && o1.value.magnitude.Finite? && Dot(o1.value.normal, o1.value.normal) == 1.0
    requires o2.Some? && o2.value.magnitude.Finite? && Dot(o2.value.normal, o2.value.normal) == 1.0
    ensures Choose(o1, o2).Some?
    ensures var c := Choose(o1, o2).value;
      && c.magnitude.Finite?
      && Dot(c.normal, c.normal) == 1.0
      && (c.magnitude.value == o1.value.magnitude.value || c.magnitude.value == o2.value.magnitude.value)
      && Abs(c.magnitude.value) <= Abs(o1.value.magnitude.value)
      && Abs(c.magnitude.value) <= Abs(o2.value.magnitude.value)
  {
    var u := o2.value.normal;
    DotNegate(Negate(u), u);
    DotNegate(u, u);
    DotCommutes(Negate(u), u);
  }

  /**
   * Two colliding non-empty vertex lists are always moved: `resolveFor`
   * reaches the position update with a nonzero translation.
   */
  lemma CollidingPairIsCorrected(mover: seq<Vec2>, collider: seq<Vec2>, sqrt: real -> real)
    requires SqrtOnEdges(mover, sqrt) && SqrtOnEdges(collider, sqrt)
    requires |mover| > 0 && |collider| > 0 && Collides(mover, collider)
    ensures Correction(mover, collider, sqrt).Some?
    ensures Correction(mover, collider, sqrt).value != Zero
  {
    OverlapGivesMtv(mover, collider, sqrt);
    OverlapGivesMtv(collider, mover, sqrt);
    NonZeroResultsMove(MtvOf(mover, collider, sqrt), MtvOf(collider, mover, sqrt));
  }

  /** Two finite, nonzero results along normals of length one give a nonzero translation. */
  lemma NonZeroResultsMove(o1: Option<Mtv>, o2: Option<Mtv>)
    requires o1.Some? && o1.value.magnitude.Finite? && Dot(o1.value.normal, o1.value.normal) == 1.0
    requires o2.Some? && o2.value.magnitude.Finite? && Dot(o2.value.normal, o2.value.normal) == 1.0
    requires o1.value.magnitude.value != 0.0 && o2.value.magnitude.value != 0.0
    ensures Translation(Choose(o1, o2)).Some? && Translation(Choose(o1, o2)).value != Zero
  {
    ChooseBetweenUnits(o1, o2);
    var c := Choose(o1, o2).value;
    ScaledUnitIsNonZero(c.normal, c.magnitude.value);
  }

  /** A search with an empty mover finds a gap along the first edge of a non-empty collider. */
  lemma EmptyMoverFindsGap(mover: seq<Vec2>, collider: seq<Vec2>, sqrt: real -> real)
    requires SqrtOnEdges(collider, sqrt) && |mover| == 0 && |collider| > 0
    ensures MtvOf(mover, collider, sqrt).None?
  {
    assert AxisResponse(mover, collider, 0, sqrt).None?;
  }

  /** A search against an empty collider keeps its initial `{ {0, 0}, INFINITY }`. */
  lemma EmptyColliderKeepsInfinity(mover: seq<Vec2>, collider: seq<Vec2>, sqrt: real -> real)
    requires SqrtOnEdges(collider, sqrt) && |collider| == 0
    ensures MtvOf(mover, collider, sqrt) == Some(Mtv(Zero, Infinity))
  {
  }

  /** Both searches between two empty lists keep INFINITY, so nothing is chosen to move by. */
  lemma BothEmptyKeepInfinity(mover: seq<Vec2>, collider: seq<Vec2>, sqrt: real -> real)
    requires SqrtOnEdges(mover, sqrt) && SqrtOnEdges(collider, sqrt)
    requires |mover| == 0 && |collider| == 0
    ensures ChosenMtv(mover, collider, sqrt) == Some(Mtv(Zero, Infinity))
  {
    EmptyColliderKeepsInfinity(mover, collider, sqrt);
    EmptyColliderKeepsInfinity(collider, mover, sqrt);
  }

  /** An empty list on exactly one side makes one of the searches find a gap. */
  lemma OneEmptyFindsGap(mover: seq<Vec2>, collider: seq<Vec2>, sqrt: real -> real)
    requires SqrtOnEdges(mover, sqrt) && SqrtOnEdges(collider, sqrt)
    requires (|mover| == 0) != (|collider| == 0)
    ensures ChosenMtv(mover, collider, sqrt).None?
  {
    if |mover| == 0 {
      EmptyMoverFindsGap(mover, collider, sqrt);
    } else {
      EmptyMoverFindsGap(collider, mover, sqrt);
    }
  }

  /** `resolveFor` never moves a polygon when either vertex list is empty. */
  lemma EmptyListNotMoved(mover: seq<Vec2>, collider: seq<Vec2>, sqrt: real -> real)
    requires SqrtOnEdges(mover, sqrt) && SqrtOnEdges(collider, sqrt)
    requires |mover| == 0 || |collider| == 0
    ensures Correction(mover, collider, sqrt).None?
  {
    if |mover| == 0 && |collider| == 0 {
      BothEmptyKeepInfinity(mover, collider, sqrt);
    } else {
      OneEmptyFindsGap(mover, collider, sqrt);
    }
  }

  /**
   * For non-empty lists (empty ones are never moved, see `EmptyListNotMoved`)
   * a finite chosen result has the least absolute response over the edges of
   * both lists, along a normal of length one.
   */
  lemma ChosenIsMinimal(mover: seq<Vec2>, collider: seq<Vec2>, sqrt: real -> real)
    requires SqrtOnEdges(mover, sqrt) && SqrtOnEdges(collider, sqrt)
    requires |mover| > 0 && |collider| > 0
    requires ChosenMtv(mover, collider, sqrt).Some? && ChosenMtv(mover, collider, sqrt).value.magnitude.Finite?
    ensures var c := ChosenMtv(mover, collider, sqrt).value;
      Dot(c.normal, c.normal) == 1.0
    ensures var m := ChosenMtv(mover, collider, sqrt).value.magnitude.value;
      forall j :: 0 <= j < |collider| ==>
        AxisResponse(mover, collider, j, sqrt).Some? && Abs(m) <= Abs(AxisResponse(mover, collider, j, sqrt).value)
    ensures var m := ChosenMtv(mover, collider, sqrt).value.magnitude.value;
      forall j :: 0 <= j < |mover| ==>
        AxisResponse(collider, mover, j, sqrt).Some? && Abs(m) <= Abs(AxisResponse(collider, mover, j, sqrt).value)
  {
    var o1, o2 := MtvOf(mover, collider, sqrt), MtvOf(collider, mover, sqrt);
    var k1 := MtvOfMinimal(mover, collider, sqrt);
    var k2 := MtvOfMinimal(collider, mover, sqrt);
    UnitNormalIsUnit(collider, k1, sqrt);
    UnitNormalIsUnit(mover, k2, sqrt);
    ChooseBetweenUnits(o1, o2);
  }
}
