/**
 * Projection of a vertex list onto an axis (`polygon::projectLine`), the
 * strict interval overlap test (`polygon::projectedLinesCollide`) and the
 * per-axis push-out distance (`responseAcrossLine`).
 */
module Projection {
  import opened Wrappers
  import opened Vectors

  /** `polygon::projectedLine { float start; float end; }` */
  datatype ProjectedLine = ProjectedLine(start: real, end: real)

  /**
   * What `projectLine` returns. `None` stands for the value the loop starts
   * from, `{ INFINITY, -INFINITY }`, which is what an empty vertex list yields.
   */
  type Projection = Option<ProjectedLine>

  /** One turn of `projectLine`'s loop: `start = min(ps, start); end = max(ps, end)`. */
  function Include(pl: Projection, ps: real): Projection
  {
    match pl
    case None => Some(ProjectedLine(ps, ps))
    case Some(l) => Some(ProjectedLine(Min(ps, l.start), Max(ps, l.end)))
  }

  /**
   * The interval `projectLine(s, n)` computes: the loop folded over the list
   * from the front. It is absent exactly for an empty list, and otherwise is an
   * ordered interval holding every projected vertex.
   */
  function Project(s: seq<Vec2>, n: Vec2): (p: Projection)
    ensures p.None? <==> |s| == 0
    ensures p.Some? ==> p.value.start <= p.value.end
    ensures p.Some? ==> forall i :: 0 <= i < |s| ==> p.value.start <= Dot(s[i], n) <= p.value.end
  {
    if |s| == 0 then None
    else
      var p := Include(Project(s[..|s| - 1], n), Dot(s[|s| - 1], n));
      assert forall i :: 0 <= i < |s| - 1 ==> s[..|s| - 1][i] == s[i];
      p
  }

  /** Both ends of the projection are reached by some vertex. */
  lemma {:induction false} ProjectAttained(s: seq<Vec2>, n: Vec2)
    requires |s| > 0
    ensures exists i :: 0 <= i < |s| && Dot(s[i], n) == Project(s, n).value.start
    ensures exists i :: 0 <= i < |s| && Dot(s[i], n) == Project(s, n).value.end
  {
    var last := |s| - 1;
    if last == 0 {
      assert Dot(s[0], n) == Project(s, n).value.start;
      assert Dot(s[0], n) == Project(s, n).value.end;
    } else {
      var front := s[..last];
      ProjectAttained(front, n);
      var p := Project(front, n).value;
      var i :| 0 <= i < last && Dot(front[i], n) == p.start;
      var j :| 0 <= j < last && Dot(front[j], n) == p.end;
      assert front[i] == s[i] && front[j] == s[j];
      var q := Project(s, n).value;
      if Dot(s[last], n) < p.start {
        assert Dot(s[last], n) == q.start;
      } else {
        assert Dot(s[i], n) == q.start;
      }
      if p.end < Dot(s[last], n) {
        assert Dot(s[last], n) == q.end;
      } else {
        assert Dot(s[j], n) == q.end;
      }
    }
  }

  /**
   * `polygon::projectLine`: the min/max loop over the vertices, starting from
   * the `{ INFINITY, -INFINITY }` sentinel.
   */
  method ProjectLine(s: seq<Vec2>, n: Vec2) returns (pl: Projection)
    ensures pl == Project(s, n)
    ensures pl.None? <==> |s| == 0
    ensures pl.Some? ==> pl.value.start <= pl.value.end
    ensures pl.Some? ==> forall i :: 0 <= i < |s| ==> pl.value.start <= Dot(s[i], n) <= pl.value.end
    ensures pl.Some? ==> exists i :: 0 <= i < |s| && Dot(s[i], n) == pl.value.start
    ensures pl.Some? ==> exists i :: 0 <= i < |s| && Dot(s[i], n) == pl.value.end
  {
    pl := None;
    for i := 0 to |s|
      invariant pl == Project(s[..i], n)
    {
      var ps := Dot(s[i], n);
      assert s[..i + 1][..i] == s[..i];
      pl := Include(pl, ps);
    }
    assert s[..|s|] == s;
    if |s| > 0 {
      ProjectAttained(s, n);
    }
  }

  /** `polygon::projectedLinesCollide`: strict overlap, so touching ends do not collide. */
  predicate ProjectedLinesCollide(p1: ProjectedLine, p2: ProjectedLine)
  {
    p1.start < p2.end && p1.end > p2.start
  }

  /**
   * `projectedLinesCollide` applied to whatever `projectLine` returned: the
   * `{ INFINITY, -INFINITY }` sentinel makes both comparisons false.
   */
  predicate ProjectionsCollide(p1: Projection, p2: Projection)
  {
    p1.Some? && p2.Some? && ProjectedLinesCollide(p1.value, p2.value)
  }

  /** The interval moved by `t` along its axis. */
  function Shift(l: ProjectedLine, t: real): ProjectedLine
  {
    ProjectedLine(l.start + t, l.end + t)
  }

  /** The overlap test does not depend on the order of its arguments. */
  lemma CollideSymmetric(p1: ProjectedLine, p2: ProjectedLine)
    ensures ProjectedLinesCollide(p1, p2) == ProjectedLinesCollide(p2, p1)
  {
  }

  /** Intervals that only touch do not collide. */
  lemma TouchingDoesNotCollide(p1: ProjectedLine, p2: ProjectedLine)
    requires p1.end == p2.start || p1.start == p2.end
    ensures !ProjectedLinesCollide(p1, p2) && !ProjectedLinesCollide(p2, p1)
  {
  }

  /** Moving one interval is the same as moving the other the opposite way. */
  lemma CollideShift(p1: ProjectedLine, p2: ProjectedLine, t: real)
    ensures ProjectedLinesCollide(Shift(p1, t), p2) == ProjectedLinesCollide(p1, Shift(p2, -t))
  {
  }

  /**
   * `responseAcrossLine(l1, l2)`: the signed distance to move `l1` so that it
   * leaves `l2`, through whichever end of `l2` is nearer; `None` stands for
   * the INFINITY returned when there is a gap between the two.
   */
  function ResponseAcrossLine(l1: ProjectedLine, l2: ProjectedLine): (r: Option<real>)
    ensures r.None? <==> l2.start > l1.end || l2.end < l1.start
    ensures r.Some? ==> r.value == l2.start - l1.end <= 0.0 || r.value == l2.end - l1.start >= 0.0
    ensures r.Some? ==> !ProjectedLinesCollide(Shift(l1, r.value), l2)
    ensures r.Some? ==> Shift(l1, r.value).end == l2.start || Shift(l1, r.value).start == l2.end
    ensures r.Some? && l2.end - l1.start == l1.end - l2.start ==> r.value == l2.end - l1.start
  {
    var distToStartOfLine2 := l2.start - l1.end;
    if distToStartOfLine2 > 0.0 then None
    else
      var distToEndOfLine2 := l2.end - l1.start;
      if distToEndOfLine2 < 0.0 then None
      else if -distToStartOfLine2 < distToEndOfLine2 then Some(distToStartOfLine2)
      else Some(distToEndOfLine2)
  }

  /**
   * The response is the smallest push that ends the overlap: every shift of
   * `l1` after which the intervals no longer collide is at least as long.
   */
  lemma ResponseIsMinimal(l1: ProjectedLine, l2: ProjectedLine, t: real)
    requires ResponseAcrossLine(l1, l2).Some?
    requires !ProjectedLinesCollide(Shift(l1, t), l2)
    ensures Abs(ResponseAcrossLine(l1, l2).value) <= Abs(t)
  {
  }

  /** Strictly colliding intervals always get a response, and it is never zero. */
  lemma CollidingGetsResponse(l1: ProjectedLine, l2: ProjectedLine)
    requires ProjectedLinesCollide(l1, l2)
    ensures ResponseAcrossLine(l1, l2).Some? && ResponseAcrossLine(l1, l2).value != 0.0
  {
  }

  /**
   * `responseAcrossLine` applied to whatever `projectLine` returned: the
   * `{ INFINITY, -INFINITY }` sentinel on either side makes the first distance
   * INFINITY, so the result is INFINITY.
   */
  function Response(p1: Projection, p2: Projection): Option<real>
  {
    if p1.Some? && p2.Some? then ResponseAcrossLine(p1.value, p2.value) else None
  }

  /** A projection moved by `t` (the sentinel stays the sentinel). */
  function ShiftProjection(p: Projection, t: real): Projection
  {
    if p.Some? then Some(Shift(p.value, t)) else None
  }

  /** A projection with both ends multiplied by `c`. */
  function ScaleProjection(p: Projection, c: real): Projection
  {
    if p.Some? then Some(ProjectedLine(Mul(p.value.start, c), Mul(p.value.end, c))) else None
  }

  /** One turn of the projection loop: the last vertex is folded into the projection of the others. */
  lemma ProjectLast(s: seq<Vec2>, n: Vec2)
    requires |s| > 0
    ensures Project(s, n) == Include(Project(s[..|s| - 1], n), Dot(s[|s| - 1], n))
  {
  }

  /** Translating every vertex by `d` shifts the projection by `dot(d, n)`. */
  lemma {:induction false} ProjectTranslated(s: seq<Vec2>, d: Vec2, n: Vec2)
    ensures Project(Translate(s, d), n) == ShiftProjection(Project(s, n), Dot(d, n))
  {
    if |s| > 0 {
      var last := |s| - 1;
      assert Translate(s, d)[..last] == Translate(s[..last], d);
      ProjectLast(s, n);
      ProjectLast(Translate(s, d), n);
      ProjectTranslated(s[..last], d, n);
      DotAdd(s[last], d, n);
    }
  }

  /** Projecting onto a positive multiple of an axis scales the interval by the same factor. */
  lemma {:induction false} ProjectScaled(s: seq<Vec2>, n: Vec2, c: real)
    requires c > 0.0
    ensures Project(s, Scale(n, c)) == ScaleProjection(Project(s, n), c)
  {
    if |s| > 0 {
      var last := |s| - 1;
      ProjectScaled(s[..last], n, c);
      DotScale(s[last], n, c);
      IncludeScaled(Project(s[..last], n), Dot(s[last], n), c);
    }
  }

  /** One turn of the projection loop commutes with positive scaling. */
  lemma IncludeScaled(pl: Projection, ps: real, c: real)
    requires c > 0.0
    ensures Include(ScaleProjection(pl, c), Mul(ps, c)) == ScaleProjection(Include(pl, ps), c)
  {
    if pl.Some? {
      MulMonotonic(ps, pl.value.start, c);
      MulMonotonic(pl.value.end, ps, c);
    }
  }

  /** Multiplying by a positive factor keeps the order. */
  lemma MulMonotonic(a: real, b: real, c: real)
    requires c > 0.0
    ensures a < b <==> Mul(a, c) < Mul(b, c)
  {
    if a < b {
      assert (b - a) * c > 0.0;
    } else {
      assert (a - b) * c >= 0.0;
    }
  }

  /** Scaling both intervals by the same positive factor does not change the overlap test. */
  lemma CollideScaled(p1: Projection, p2: Projection, c: real)
    requires c > 0.0
    ensures ProjectionsCollide(ScaleProjection(p1, c), ScaleProjection(p2, c)) == ProjectionsCollide(p1, p2)
  {
    if p1.Some? && p2.Some? {
      MulMonotonic(p1.value.start, p2.value.end, c);
      MulMonotonic(p2.value.start, p1.value.end, c);
    }
  }

  /** A projection mirrored through zero: `[a, b]` becomes `[-b, -a]`. */
  function MirrorProjection(p: Projection): Projection
  {
    if p.Some? then Some(ProjectedLine(-p.value.end, -p.value.start)) else None
  }

  /** Projecting onto the opposite axis mirrors the interval. */
  lemma {:induction false} ProjectNegated(s: seq<Vec2>, n: Vec2)
    ensures Project(s, Negate(n)) == MirrorProjection(Project(s, n))
  {
    if |s| > 0 {
      var last := |s| - 1;
      ProjectNegated(s[..last], n);
      DotNegate(s[last], n);
    }
  }

  /** Mirroring both intervals does not change the overlap test. */
  lemma CollideMirrored(p1: Projection, p2: Projection)
    ensures ProjectionsCollide(MirrorProjection(p1), MirrorProjection(p2)) == ProjectionsCollide(p1, p2)
  {
  }
}
