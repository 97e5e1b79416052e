/**
 * The one-sided minimum translation vector search `polygon::mtvBetween`: for
 * every edge of the collider, project both vertex lists onto the edge's unit
 * normal and keep the push-out distance of least absolute value.
 *
 * The edge length `std::sqrt(diffX * diffX + diffY * diffY)` is computed by a
 * caller-supplied function `sqrt`, required to be a positive square root on
 * the squared length of every collider edge.
 */
module MtvSolver {
  import opened Wrappers
  import opened Vectors
  import opened Projection
  import opened Sat

  /** A response magnitude: a finite signed distance, or the INFINITY the search starts from. */
  datatype Magnitude = Finite(value: real) | Infinity

  /** `polygon::mtv { vec2 normal; float magnitude; }` */
  datatype Mtv = Mtv(normal: Vec2, magnitude: Magnitude)

  /** `std::abs(a) < std::abs(b)`, where INFINITY is above every finite value and not below itself. */
  predicate AbsLess(a: Magnitude, b: Magnitude)
  {
    match a
    case Infinity => false
    case Finite(x) => b.Infinity? || Abs(x) < Abs(b.value)
  }

  /** `{ diffX, diffY }`: edge `i` as a vector from its first to its second vertex. */
  function EdgeVector(s: seq<Vec2>, i: nat): Vec2
    requires i < |s|
  {
    Sub(s[Next(i, |s|)], s[i])
  }

  /** `l` is the positive square root of `q`. */
  predicate IsPositiveRoot(l: real, q: real)
  {
    l > 0.0 && Mul(l, l) == q
  }

  /** `sqrt` gives the positive square root of the squared length of every edge of `s`. */
  predicate SqrtOnEdges(s: seq<Vec2>, sqrt: real -> real)
  {
    forall i :: 0 <= i < |s| ==> IsPositiveRoot(sqrt(SquaredLength(EdgeVector(s, i))), SquaredLength(EdgeVector(s, i)))
  }

  /** `l`: the length of edge `i`. */
  function EdgeLength(s: seq<Vec2>, i: nat, sqrt: real -> real): (l: real)
    requires i < |s| && SqrtOnEdges(s, sqrt)
    ensures l > 0.0
  {
    sqrt(SquaredLength(EdgeVector(s, i)))
  }

  /** `cEdgeNormal / l`: the normal of edge `i` divided by the edge's length. */
  function UnitNormal(s: seq<Vec2>, i: nat, sqrt: real -> real): Vec2
    requires i < |s| && SqrtOnEdges(s, sqrt)
  {
    var n := EdgeNormal(s, i);
    var l := EdgeLength(s, i, sqrt);
    Vec2(n.x / l, n.y / l)
  }

  /** The response of `mover` against `collider` along the unit normal of collider edge `i`. */
  function AxisResponse(mover: seq<Vec2>, collider: seq<Vec2>, i: nat, sqrt: real -> real): Option<real>
    requires i < |collider| && SqrtOnEdges(collider, sqrt)
  {
    var u := UnitNormal(collider, i, sqrt);
    Response(Project(mover, u), Project(collider, u))
  }

  /** No collider edge normal shows a gap between the two projections. */
  predicate AllAxesRespond(mover: seq<Vec2>, collider: seq<Vec2>, sqrt: real -> real)
    requires SqrtOnEdges(collider, sqrt)
  {
    forall i :: 0 <= i < |collider| ==> AxisResponse(mover, collider, i, sqrt).Some?
  }

  /** The per-edge responses, in edge order. */
  function Responses(mover: seq<Vec2>, collider: seq<Vec2>, sqrt: real -> real): seq<real>
    requires SqrtOnEdges(collider, sqrt) && AllAxesRespond(mover, collider, sqrt)
  {
    seq(|collider|, i requires 0 <= i < |collider| => AxisResponse(mover, collider, i, sqrt).value)
  }

  /** The unit normal of edge `i` as `mtvBetween` computes it from the two vertices. */
  lemma UnitNormalComputed(s: seq<Vec2>, i: nat, sqrt: real -> real)
    requires i < |s| && SqrtOnEdges(s, sqrt)
    ensures var p1, p2 := s[i], s[(i + 1) % |s|];
      var n := NormalBetween(p1, p2);
      var l := sqrt(Mul(p2.x - p1.x, p2.x - p1.x) + Mul(p2.y - p1.y, p2.y - p1.y));
      l > 0.0 && UnitNormal(s, i, sqrt) == Vec2(n.x / l, n.y / l)
  {
    assert Sub(s[(i + 1) % |s|], s[i]) == EdgeVector(s, i);
  }

  /** Appending a response moves the first minimum to it exactly when it is strictly smaller. */
  lemma FirstMinimalExtended(rs: seq<real>, r: real)
    ensures FirstMinimal(rs + [r]) ==
      if |rs| == 0 then 0
      else if Abs(r) < Abs(rs[FirstMinimal(rs)]) then |rs| else FirstMinimal(rs)
  {
    assert (rs + [r])[..|rs|] == rs;
  }

  /** The responses are the ones recorded axis by axis. */
  lemma ResponsesAre(mover: seq<Vec2>, collider: seq<Vec2>, sqrt: real -> real, rs: seq<real>)
    requires SqrtOnEdges(collider, sqrt) && |rs| == |collider|
    requires forall j :: 0 <= j < |rs| ==> AxisResponse(mover, collider, j, sqrt) == Some(rs[j])
    ensures AllAxesRespond(mover, collider, sqrt) && Responses(mover, collider, sqrt) == rs
  {
  }

  /**
   * The index the scan settles on: the first response of least absolute value
   * (a later one replaces the current one only when strictly smaller).
   */
  function FirstMinimal(rs: seq<real>): (k: nat)
    requires |rs| > 0
    ensures k < |rs|
    ensures forall j :: 0 <= j < |rs| ==> Abs(rs[k]) <= Abs(rs[j])
    ensures forall j :: 0 <= j < k ==> Abs(rs[k]) < Abs(rs[j])
  {
    if |rs| == 1 then 0
    else
      var front := rs[..|rs| - 1];
      var k := FirstMinimal(front);
      assert forall j :: 0 <= j < |front| ==> front[j] == rs[j];
      if Abs(rs[|rs| - 1]) < Abs(rs[k]) then |rs| - 1 else k
  }

  /**
   * What `mtvBetween(mover, collider)` returns: nothing (nullptr) when some
   * collider edge normal shows a gap; for an empty collider the initial
   * `{ {0, 0}, INFINITY }`; otherwise the first edge normal of least absolute
   * response, with that response.
   */
  function MtvOf(mover: seq<Vec2>, collider: seq<Vec2>, sqrt: real -> real): Option<Mtv>
    requires SqrtOnEdges(collider, sqrt)
  {
    if !AllAxesRespond(mover, collider, sqrt) then None
    else if |collider| == 0 then Some(Mtv(Zero, Infinity))
    else
      var rs := Responses(mover, collider, sqrt);
      var k := FirstMinimal(rs);
      Some(Mtv(UnitNormal(collider, k, sqrt), Finite(rs[k])))
  }

  /** `mtvBetween` gives nothing exactly when some edge normal of the collider shows a gap. */
  lemma MtvOfAbsent(mover: seq<Vec2>, collider: seq<Vec2>, sqrt: real -> real)
    requires SqrtOnEdges(collider, sqrt)
    ensures MtvOf(mover, collider, sqrt).None? <==>
      exists i :: 0 <= i < |collider| && AxisResponse(mover, collider, i, sqrt).None?
  {
  }

  /**
   * For a non-empty collider a present result is a finite response along the
   * unit normal of an edge `k`: no larger in absolute value than the response
   * along any edge, and strictly smaller than along every edge before `k`.
   */
  lemma MtvOfMinimal(mover: seq<Vec2>, collider: seq<Vec2>, sqrt: real -> real) returns (k: nat)
    requires SqrtOnEdges(collider, sqrt) && |collider| > 0
    requires MtvOf(mover, collider, sqrt).Some?
    ensures k < |collider| && AllAxesRespond(mover, collider, sqrt)
    ensures MtvOf(mover, collider, sqrt) ==
      Some(Mtv(UnitNormal(collider, k, sqrt), Finite(AxisResponse(mover, collider, k, sqrt).value)))
    ensures forall j :: 0 <= j < |collider| ==>
      Abs(AxisResponse(mover, collider, k, sqrt).value) <= Abs(AxisResponse(mover, collider, j, sqrt).value)
    ensures forall j :: 0 <= j < k ==>
      Abs(AxisResponse(mover, collider, k, sqrt).value) < Abs(AxisResponse(mover, collider, j, sqrt).value)
  {
    var rs := Responses(mover, collider, sqrt);
    k := FirstMinimal(rs);
    var rk := AxisResponse(mover, collider, k, sqrt).value;
    assert rk == rs[k];
    forall j | 0 <= j < |collider|
      ensures Abs(rk) <= Abs(AxisResponse(mover, collider, j, sqrt).value)
      ensures j < k ==> Abs(rk) < Abs(AxisResponse(mover, collider, j, sqrt).value)
    {
      assert AxisResponse(mover, collider, j, sqrt).value == rs[j];
    }
  }

  /** Dividing by a positive length is scaling by its reciprocal. */
  lemma DivIsScale(a: real, l: real)
    requires l > 0.0
    ensures a / l == Mul(a, 1.0 / l)
  {
  }

  /** A product of positive reals is positive. */
  lemma PositiveProduct(a: real, b: real)
    requires a > 0.0 && b > 0.0
    ensures Mul(a, b) > 0.0
  {
    assert a * b > 0.0 * b;
  }

  /** Squaring a quotient divides the square of the numerator. */
  lemma SquareOfQuotient(a: real, l: real)
    requires l > 0.0
    ensures Mul(l, l) > 0.0 && Mul(a / l, a / l) == Mul(a, a) / Mul(l, l)
  {
    var q := a / l;
    assert a == q * l;
    PositiveProduct(l, l);
    assert Mul(a, a) == (q * l) * (q * l) == Mul(q, q) * Mul(l, l);
  }

  /**
   * The unit normal of an edge is its `normalBetween` normal scaled by a
   * positive factor, and it has length one.
   */
  lemma UnitNormalIsUnit(s: seq<Vec2>, i: nat, sqrt: real -> real)
    requires i < |s| && SqrtOnEdges(s, sqrt)
    ensures var l := EdgeLength(s, i, sqrt);
      UnitNormal(s, i, sqrt) == Scale(EdgeNormal(s, i), 1.0 / l) && 1.0 / l > 0.0
    ensures Dot(UnitNormal(s, i, sqrt), UnitNormal(s, i, sqrt)) == 1.0
  {
    var n := EdgeNormal(s, i);
    var l := EdgeLength(s, i, sqrt);
    var u := UnitNormal(s, i, sqrt);
    DivIsScale(n.x, l);
    DivIsScale(n.y, l);
    SquareOfQuotient(n.x, l);
    SquareOfQuotient(n.y, l);
    assert SquaredLength(n) == SquaredLength(EdgeVector(s, i)) == Mul(l, l);
    assert Dot(u, u) == (Mul(n.x, n.x) + Mul(n.y, n.y)) / Mul(l, l);
  }

  /** The responses along collider edges `0 .. |rs| - 1` are `rs`. */
  ghost predicate Recorded(mover: seq<Vec2>, collider: seq<Vec2>, sqrt: real -> real, rs: seq<real>)
    requires SqrtOnEdges(collider, sqrt)
  {
    |rs| <= |collider| && forall j :: 0 <= j < |rs| ==> AxisResponse(mover, collider, j, sqrt) == Some(rs[j])
  }

  /** Recording the response of the next edge. */
  lemma RecordedExtended(mover: seq<Vec2>, collider: seq<Vec2>, sqrt: real -> real, rs: seq<real>, r: real)
    requires SqrtOnEdges(collider, sqrt)
    requires Recorded(mover, collider, sqrt, rs) && |rs| < |collider|
    requires AxisResponse(mover, collider, |rs|, sqrt) == Some(r)
    ensures Recorded(mover, collider, sqrt, rs + [r])
  {
    var extended := rs + [r];
    forall j | 0 <= j <= |rs|
      ensures AxisResponse(mover, collider, j, sqrt) == Some(extended[j])
    {
      if j < |rs| {
        assert extended[j] == rs[j];
      }
    }
  }

  /**
   * The best magnitude and normal of `mtvBetween`'s scan after the responses
   * `rs`: the initial ones before any edge, and afterwards the first response
   * of least absolute value with its edge's unit normal.
   */
  ghost predicate Best(collider: seq<Vec2>, sqrt: real -> real, rs: seq<real>, best: Magnitude, normal: Vec2)
    requires SqrtOnEdges(collider, sqrt) && |rs| <= |collider|
  {
    && (|rs| == 0 ==> best == Infinity && normal == Zero)
    && (|rs| > 0 ==> best == Finite(rs[FirstMinimal(rs)]) && normal == UnitNormal(collider, FirstMinimal(rs), sqrt))
  }

  /** One turn of the scan keeps its best pair: a strictly smaller response replaces it. */
  lemma BestExtended(collider: seq<Vec2>, sqrt: real -> real, rs: seq<real>, best: Magnitude, normal: Vec2,
                     r: real, best': Magnitude, normal': Vec2)
    requires SqrtOnEdges(collider, sqrt) && |rs| < |collider|
    requires Best(collider, sqrt, rs, best, normal)
    requires best' == if AbsLess(Finite(r), best) then Finite(r) else best
    requires normal' == if AbsLess(Finite(r), best) then UnitNormal(collider, |rs|, sqrt) else normal
    ensures Best(collider, sqrt, rs + [r], best', normal')
  {
    FirstMinimalExtended(rs, r);
  }

  /**
   * The body of `mtvBetween`'s loop for collider edge `i`: the edge's unit
   * normal and the response of `mover` against `collider` along it.
   */
  method EdgeResponse(mover: seq<Vec2>, collider: seq<Vec2>, i: nat, sqrt: real -> real)
    returns (cEdgeNormal: Vec2, responseMagnitude: Option<real>)
    requires i < |collider| && SqrtOnEdges(collider, sqrt)
    ensures cEdgeNormal == UnitNormal(collider, i, sqrt)
    ensures responseMagnitude == AxisResponse(mover, collider, i, sqrt)
  {
    var p1 := collider[i];
    var p2 := collider[(i + 1) % |collider|];
    cEdgeNormal := NormalBetween(p1, p2);

    var diffX := p2.x - p1.x;
    var diffY := p2.y - p1.y;
    var l := sqrt(Mul(diffX, diffX) + Mul(diffY, diffY));
    UnitNormalComputed(collider, i, sqrt);

    cEdgeNormal := Vec2(cEdgeNormal.x / l, cEdgeNormal.y / l);

    var mProjected := ProjectLine(mover, cEdgeNormal);
    var cProjected := ProjectLine(collider, cEdgeNormal);

    responseMagnitude := Response(mProjected, cProjected);
  }

  /**
   * `polygon::mtvBetween`: scans the collider's edges, returning nothing at the
   * first edge normal along which the projections have a gap, and otherwise
   * keeping the edge normal with the response of least absolute value.
   */
  method MtvBetween(mover: seq<Vec2>, collider: seq<Vec2>, sqrt: real -> real) returns (r: Option<Mtv>)
    requires SqrtOnEdges(collider, sqrt)
    ensures r == MtvOf(mover, collider, sqrt)
  {
    var minResponseMagnitude := Infinity;
    var responseNormal := Vec2(0.0, 0.0);
    ghost var rs: seq<real> := [];
    for i := 0 to |collider|
      invariant |rs| == i
      invariant Recorded(mover, collider, sqrt, rs)
      invariant Best(collider, sqrt, rs, minResponseMagnitude, responseNormal)
    {
      var cEdgeNormal, responseMagnitude := EdgeResponse(mover, collider, i, sqrt);
      if responseMagnitude.None? {
        return None;
      }

      ghost var (best, normal) := (minResponseMagnitude, responseNormal);
      if AbsLess(Finite(responseMagnitude.value), minResponseMagnitude) {
        minResponseMagnitude := Finite(responseMagnitude.value);
        responseNormal := cEdgeNormal;
      }
      RecordedExtended(mover, collider, sqrt, rs, responseMagnitude.value);
      BestExtended(collider, sqrt, rs, best, normal, responseMagnitude.value, minResponseMagnitude, responseNormal);
      rs := rs + [responseMagnitude.value];
    }
    ResponsesAre(mover, collider, sqrt, rs);
    return Some(Mtv(responseNormal, minResponseMagnitude));
  }
}
