# AxisPolyCollisions narrow phase, in Dafny

This project models the narrow-phase collision code of AxisPolyCollisions's
`polygon` class. It covers:

- the Separating Axis Theorem overlap test between two convex polygons
  (`projectLine`, `projectedLinesCollide`, `checkOverlapSAT`, `collidesWith`);
- the push-out that moves one polygon out of another along a minimum
  translation vector (`responseAcrossLine`, `mtvBetween`, `resolveFor`);
- the vector helpers `dot` and `normalBetween`, the world-space vertex list
  `getGlobalVertices`, and the box builder `setAsBox`.

Values are exact `real`s rather than `float`s. A vertex list is a
`seq<Vec2>`. The C++ sentinels become datatypes:

- the `{ INFINITY, -INFINITY }` projection of an empty list is `None`;
- the INFINITY of `responseAcrossLine` is `None`;
- the `nullptr` returned by `mtvBetween` is `None`;
- the INFINITY magnitude an `mtv` starts from is `Magnitude.Infinity`.

The edge length `std::sqrt(diffX * diffX + diffY * diffY)` goes through a
function `sqrt` supplied by the caller. `SqrtOnEdges` requires it to be a
positive square root of every edge's squared length, which rules out
zero-length edges.

The modules follow the source:

- `Vectors`: `vec2`, `dot`, `normalBetween`.
- `Projection`: `projectLine`, `projectedLinesCollide`, `responseAcrossLine`.
- `Sat`: `checkOverlapSAT`, `collidesWith`.
- `MtvSolver`: `mtvBetween`.
- `Resolution`: the choice made in `resolveFor`.
- `Polygons`: the `polygon` class, whose methods update its fields in place.
- `Boxes`: what the overlap test means for boxes built by `setAsBox`.

The main results are:

- Moving a polygon by the correction `resolveFor` applies ends the
  collision (`Resolution.CorrectionSeparates`, `Polygons.ResolvedApart`).
- Two colliding non-empty polygons are always moved
  (`Resolution.CollidingPairIsCorrected`).
- The chosen correction is the smallest push among all edge normals of both
  polygons (`Resolution.ChosenIsMinimal`).
- For boxes, the overlap test is exactly the axis-aligned bounding-box test
  with strict inequalities (`Boxes.BoxesCollide`).

Three behaviours of `polygon.cpp` that the model keeps:

- `mtvBetween` returns nothing as soon as one collider axis shows a gap, and
  does not look at the remaining edges.
- Projecting an empty vertex list does not fail. It returns the
  `{ INFINITY, -INFINITY }` sentinel. `projectedLinesCollide` is false on it,
  and `responseAcrossLine` returns INFINITY for it. The model therefore does
  not require non-empty lists anywhere; it follows both sentinels through to
  `resolveFor`.
- No operation validates its polygons. Lists with fewer than three vertices
  go through the same loops. `checkOverlapSAT` and `collidesWith` are
  modelled for lists of every length. For `mtvBetween` and `resolveFor`, the
  empty list is covered (`Resolution.EmptyListNotMoved`), but a list with a
  zero-length edge is outside the model (see `std::sqrt` below). That
  includes every one-vertex list, whose only edge runs from the vertex to
  itself.

## Model

| member | source | states |
|---|---|---|
| `Vectors.NormalBetween` | AxisPolyCollisions/polygon.cpp:55-58 | The edge normal is perpendicular to the edge, is zero exactly when the two vertices coincide, and is as long as the edge. |
| `Vectors.Negate` | AxisPolyCollisions/polygon.cpp:210-211 | Negating the second normal gives its additive inverse. |
| `Vectors.Dot` | AxisPolyCollisions/polygon.cpp:60-63 | The definition is `dot`: the sum of the component products. |
| `Vectors.DotAdd` | AxisPolyCollisions/polygon.cpp:60-63 | `dot` is additive in its first argument. |
| `Vectors.DotScale` | AxisPolyCollisions/polygon.cpp:60-63 | `dot` is homogeneous in its second argument. |
| `Vectors.DotCommutes` | AxisPolyCollisions/polygon.cpp:60-63 | `dot` is symmetric. |
| `Vectors.DotNegate` | AxisPolyCollisions/polygon.cpp:60-63 | Negating one argument negates `dot`. |
| `Vectors.NormalBetweenTranslated` | AxisPolyCollisions/polygon.cpp:55-58 | Translating both ends of an edge leaves its normal unchanged. |
| `Projection.Project` | AxisPolyCollisions/polygon.cpp:65-75 | The projection is absent exactly for an empty list. Otherwise it is an ordered interval that contains the projection of every vertex. |
| `Projection.ProjectAttained` | AxisPolyCollisions/polygon.cpp:65-75 | For a non-empty list, both ends of the interval are the projection of some vertex. |
| `Projection.ProjectLine` | AxisPolyCollisions/polygon.cpp:65-75 | The min/max loop starting from the sentinel computes `Project`: absent for an empty list, otherwise ordered, containing every vertex's projection, with both ends attained. |
| `Projection.Include` | AxisPolyCollisions/polygon.cpp:70-72 | The definition is one turn of the `projectLine` loop: `start = min(ps, start)` and `end = max(ps, end)`. Starting from the sentinel (`None`), it gives the one-point interval `[ps, ps]`. |
| `Projection.ProjectedLinesCollide` | AxisPolyCollisions/polygon.cpp:77-80 | The definition is `projectedLinesCollide`: strict overlap, `p1.start < p2.end` and `p1.end > p2.start`. |
| `Projection.ProjectionsCollide` | AxisPolyCollisions/polygon.cpp:79 | The definition is `projectedLinesCollide` applied to what `projectLine` returned. It is false whenever either side is the `{ INFINITY, -INFINITY }` sentinel, because both comparisons at line 79 fail against ±INFINITY. |
| `Projection.CollideSymmetric` | AxisPolyCollisions/polygon.cpp:77-80 | The interval overlap test is symmetric. |
| `Projection.TouchingDoesNotCollide` | AxisPolyCollisions/polygon.cpp:77-80 | Intervals that only share an end do not collide, in either order. |
| `Projection.CollideShift` | AxisPolyCollisions/polygon.cpp:77-80 | Shifting one interval by `t` tests the same as shifting the other by `-t`. |
| `Projection.ResponseAcrossLine` | AxisPolyCollisions/polygon.cpp:144-158 | The result is absent (INFINITY) exactly when there is a gap. Otherwise it is `l2.start - l1.end <= 0` or `l2.end - l1.start >= 0`, with the latter on a tie. Shifting `l1` by it makes the intervals touch without colliding. |
| `Projection.ResponseIsMinimal` | AxisPolyCollisions/polygon.cpp:144-158 | No shift that ends the overlap is shorter than the response. |
| `Projection.CollidingGetsResponse` | AxisPolyCollisions/polygon.cpp:144-158 | Strictly overlapping intervals always get a nonzero response. |
| `Projection.Response` | AxisPolyCollisions/polygon.cpp:144-158 | The definition is `responseAcrossLine` applied to what `projectLine` returned: INFINITY (`None`) when either side is the empty-list sentinel, since `l2.start - l1.end` is then +INFINITY and the test at line 147 returns INFINITY; otherwise `ResponseAcrossLine`. |
| `Projection.ProjectLast` | AxisPolyCollisions/polygon.cpp:68-73 | An unfolding of `Project`'s definition, used to guide proofs: the projection of a non-empty list folds the last vertex into the projection of the others. |
| `Projection.ProjectTranslated` | AxisPolyCollisions/polygon.cpp:65-75 | Translating every vertex by `d` shifts the projection onto `n` by `dot(d, n)`. |
| `Projection.ProjectScaled` | AxisPolyCollisions/polygon.cpp:65-75 | Projecting onto a positive multiple of an axis scales the interval by that factor. |
| `Projection.IncludeScaled` | AxisPolyCollisions/polygon.cpp:71-72 | One min/max step of the projection loop commutes with positive scaling. |
| `Projection.CollideScaled` | AxisPolyCollisions/polygon.cpp:77-80 | Scaling both intervals by a positive factor does not change the overlap test. |
| `Projection.ProjectNegated` | AxisPolyCollisions/polygon.cpp:65-75 | Projecting onto the opposite axis mirrors the interval through zero. |
| `Projection.CollideMirrored` | AxisPolyCollisions/polygon.cpp:77-80 | Mirroring both intervals does not change the overlap test. |
| `Sat.EdgeNormal` | AxisPolyCollisions/polygon.cpp:86-89 | The definition is `normalBetween(s[i], s[(i + 1) % s.size()])`, the unnormalised edge normal. It is built the same way at lines 166-168. |
| `Sat.CheckOverlapSAT` | AxisPolyCollisions/polygon.cpp:82-97 | The result is false exactly when some edge normal of `s1` gives non-colliding projections. |
| `Sat.CollidesSymmetric` | AxisPolyCollisions/polygon.cpp:99-104 | The two-sided test is symmetric. |
| `Sat.SeparatedOnSymmetric` | AxisPolyCollisions/polygon.cpp:82-97 | An axis that separates `s1` from `s2` also separates `s2` from `s1`. |
| `Sat.EdgeNormalTranslated` | AxisPolyCollisions/polygon.cpp:88-89 | Moving a vertex list does not change its edge normals. |
| `MtvSolver.AbsLess` | AxisPolyCollisions/polygon.cpp:184 | The definition is the test `std::abs(a) < std::abs(b)`, with INFINITY above every finite value and not below itself. The same test is at line 215. |
| `MtvSolver.UnitNormal` | AxisPolyCollisions/polygon.cpp:170-174 | The definition is `cEdgeNormal / l`: the edge normal divided component by component by the edge's length. `MtvSolver.UnitNormalIsUnit` proves it has length one. |
| `MtvSolver.EdgeLength` | AxisPolyCollisions/polygon.cpp:170-172 | The edge length used for normalisation is positive. |
| `MtvSolver.UnitNormalComputed` | AxisPolyCollisions/polygon.cpp:166-174 | An unfolding of `UnitNormal`'s definition, used to tie `EdgeResponse` to it. It writes the normalised normal in the source's `p1`, `p2`, `diffX`, `diffY`, `l` form, with vertices `i` and `(i + 1) % size` and a positive `l`. |
| `MtvSolver.UnitNormalIsUnit` | AxisPolyCollisions/polygon.cpp:166-174 | The normalised edge normal is a positive multiple of the `normalBetween` normal and has length one. |
| `MtvSolver.FirstMinimal` | AxisPolyCollisions/polygon.cpp:184-188 | The index the scan settles on holds a response of least absolute value, strictly smaller than every earlier one, so the earliest axis wins a tie. |
| `MtvSolver.FirstMinimalExtended` | AxisPolyCollisions/polygon.cpp:184-188 | A new response replaces the current best exactly when it is strictly smaller in absolute value. |
| `MtvSolver.ResponsesAre` | AxisPolyCollisions/polygon.cpp:176-182 | Responses recorded edge by edge for every collider edge are the per-axis responses. |
| `MtvSolver.RecordedExtended` | AxisPolyCollisions/polygon.cpp:176-182 | Recording the next edge's response keeps the record of responses seen so far. |
| `MtvSolver.BestExtended` | AxisPolyCollisions/polygon.cpp:184-188 | One turn of the scan keeps the best magnitude and normal equal to the first least response and its edge's unit normal. |
| `MtvSolver.MtvOfAbsent` | AxisPolyCollisions/polygon.cpp:176-182 | The search gives nothing exactly when some collider edge normal shows a gap. |
| `MtvSolver.MtvOfMinimal` | AxisPolyCollisions/polygon.cpp:160-192 | For a non-empty collider, a present result is the response along some edge `k`'s unit normal. Its absolute value is no larger than along any edge, and strictly smaller than along every edge before `k`. |
| `MtvSolver.EdgeResponse` | AxisPolyCollisions/polygon.cpp:166-179 | One loop turn computes the unit normal of collider edge `i` and the response along it. |
| `MtvSolver.MtvBetween` | AxisPolyCollisions/polygon.cpp:160-192 | The loop, with its early return, computes `MtvOf`: nothing at a gap; `{ (0,0), INFINITY }` for an empty collider; otherwise the first least response with its unit normal. |
| `Resolution.Flip` | AxisPolyCollisions/polygon.cpp:210-211 | The flipped result has the same magnitude along the opposite normal. |
| `Resolution.Choose` | AxisPolyCollisions/polygon.cpp:202-223 | There is a choice exactly when both one-sided results exist, and it is either `r1` or the flipped `r2`; which one is stated by `Resolution.ChooseRule`. |
| `Resolution.ChooseRule` | AxisPolyCollisions/polygon.cpp:213-223 | With both results present, the flipped `r2` is chosen exactly when its magnitude is strictly smaller in absolute value. So `r1` wins a tie, both between finite magnitudes of equal absolute value and between two INFINITY magnitudes. |
| `Resolution.Translation` | AxisPolyCollisions/polygon.cpp:225-229 | There is a translation exactly when a result was chosen and its magnitude is finite. |
| `Resolution.PickCorrection` | AxisPolyCollisions/polygon.cpp:210-229 | The flip, the strict comparison (`r1` on ties), the INFINITY check and `normal * magnitude` compute the translation of the choice. |
| `Resolution.CorrectionBetween` | AxisPolyCollisions/polygon.cpp:200-229 | Both searches, stopping at the first absent one, followed by the choice, compute `Correction`. |
| `Resolution.SeparatedOnUnitNormal` | AxisPolyCollisions/polygon.cpp:166-174 | The unit edge normal separates exactly the pairs the raw edge normal separates. |
| `Resolution.ProjectAfterMove` | AxisPolyCollisions/polygon.cpp:228-229 | Moving by `m` along a unit normal shifts the projections onto it by `m`, and moving along the opposite normal shifts them by `-m`. |
| `Resolution.MoverSideSeparates` | AxisPolyCollisions/polygon.cpp:202-204 | Moving the mover by the mover-side result separates it from the collider along that collider edge. |
| `Resolution.ColliderSideSeparates` | AxisPolyCollisions/polygon.cpp:206-211 | Moving the mover by the flipped collider-side result separates it along that mover edge. |
| `Resolution.CorrectionSeparates` | AxisPolyCollisions/polygon.cpp:194-230 | After the correction the two world-space vertex lists no longer collide. |
| `Resolution.OverlapGivesResponses` | AxisPolyCollisions/polygon.cpp:176-182 | When no collider edge separates, every collider edge gives a nonzero response. |
| `Resolution.OverlapGivesMtv` | AxisPolyCollisions/polygon.cpp:160-192 | Against an overlapping non-empty collider, the search finds a finite nonzero response along a unit normal. |
| `Resolution.ScaledUnitIsNonZero` | AxisPolyCollisions/polygon.cpp:228-229 | A nonzero multiple of a unit normal is a nonzero move. |
| `Resolution.ChooseBetweenUnits` | AxisPolyCollisions/polygon.cpp:210-223 | Choosing between two finite results along unit normals gives a finite result along a unit normal. Its magnitude is one of the two and no larger in absolute value than either. |
| `Resolution.NonZeroResultsMove` | AxisPolyCollisions/polygon.cpp:210-229 | Two finite nonzero results give a nonzero translation. |
| `Resolution.CollidingPairIsCorrected` | AxisPolyCollisions/polygon.cpp:194-230 | Two colliding non-empty vertex lists always get a nonzero correction. |
| `Resolution.EmptyMoverFindsGap` | AxisPolyCollisions/polygon.cpp:176-182 | An empty mover meets a gap at the first edge of a non-empty collider. |
| `Resolution.EmptyColliderKeepsInfinity` | AxisPolyCollisions/polygon.cpp:162-163 | Against an empty collider the search keeps its initial `{ (0,0), INFINITY }`. |
| `Resolution.BothEmptyKeepInfinity` | AxisPolyCollisions/polygon.cpp:213-226 | With two empty lists the chosen result has magnitude INFINITY. |
| `Resolution.OneEmptyFindsGap` | AxisPolyCollisions/polygon.cpp:202-208 | With exactly one empty list one of the searches gives nothing. |
| `Resolution.EmptyListNotMoved` | AxisPolyCollisions/polygon.cpp:194-230 | A polygon is never moved when either vertex list is empty. |
| `Resolution.ChosenIsMinimal` | AxisPolyCollisions/polygon.cpp:194-230 | A finite chosen result lies along a unit normal, and its magnitude is no larger in absolute value than the response along any edge normal of either polygon. |
| `Polygons.Box` | AxisPolyCollisions/polygon.cpp:3-13 | A box has four corners: opposite corners span `(sizeX, sizeY)`, the box is centred on the local origin, and the other two corners complete the axis-aligned rectangle. |
| `Polygons.TranslateTwice` | AxisPolyCollisions/polygon.cpp:27-35 | Translating by `a` and then by `d` is translating by `a + d`. |
| `Polygons.ResolvedApart` | AxisPolyCollisions/polygon.cpp:194-230 | A polygon moved to `position + correction` no longer collides with the other polygon. |
| `Polygons.Moved` | AxisPolyCollisions/polygon.cpp:225-229 | A translation, when there is one, moves the position by exactly that vector; with none, the position stays put. |
| `Polygons.Polygon.constructor` | AxisPolyCollisions/polygon.h:14-15 | A new polygon is at the origin with no vertices. |
| `Polygons.Polygon.GetGlobalVertices` | AxisPolyCollisions/polygon.cpp:27-35 | The result has as many elements as `vertices`, element `i` is `vertices[i] + position`, and nothing is modified. |
| `Polygons.Polygon.SetAsBox` | AxisPolyCollisions/polygon.cpp:3-13 | The vertices become exactly the four box corners, and no other field changes. |
| `Polygons.Polygon.CollidesWith` | AxisPolyCollisions/polygon.cpp:99-104 | The result is `checkOverlapSAT` in both directions on the world-space vertices. |
| `Polygons.Polygon.ResolveFor` | AxisPolyCollisions/polygon.cpp:194-230 | The method sets the debug fields to 32 and 64. `position` becomes `Moved(old position, correction)`: it moves by the correction when there is one and stays put otherwise. The vertices do not change, and neither does `p` when it is another polygon. |
| `Boxes.BoxEdgeNormals` | AxisPolyCollisions/polygon.cpp:3-13 | A box's edge normals point down, right, up and left, and each is as long as its edge. |
| `Boxes.SeparatedOnMultiple` | AxisPolyCollisions/polygon.cpp:82-97 | An axis and any positive or negated positive multiple of it separate the same pairs. |
| `Boxes.ProjectFour` | AxisPolyCollisions/polygon.cpp:65-75 | An unfolding of `Project`'s definition, used to guide proofs: for four vertices it is the loop written out, one min/max step per vertex. |
| `Boxes.BoxProjections` | AxisPolyCollisions/polygon.cpp:3-13 | A placed box projects onto each coordinate axis as its extent around its centre. |
| `Boxes.BoxEdgeSeparates` | AxisPolyCollisions/polygon.cpp:82-97 | An edge of a box separates exactly when the matching coordinate axis does. |
| `Boxes.BoxHasSeparatingEdge` | AxisPolyCollisions/polygon.cpp:82-97 | Some box edge separates exactly when the x or the y axis does. |
| `Boxes.BoxesCollide` | AxisPolyCollisions/polygon.cpp:99-104 | Two boxes of positive size collide exactly when their centres are closer than the sum of their half sizes on both axes, so touching boxes do not collide. |
| `Boxes.DistantBoxesApart` | AxisPolyCollisions/polygon.cpp:99-104 | 4x4 boxes at (0,0) and (10,10) do not collide. |
| `Boxes.TouchingSquaresApart` | AxisPolyCollisions/polygon.cpp:99-104 | Unit squares at (0,0) and (1,0) share an edge and do not collide. |
| `Boxes.OverlappingBoxesCollide` | AxisPolyCollisions/polygon.cpp:99-104 | 2x2 boxes at (0,0) and (1,0) collide. |

## Left out

- `render` and the SDL engine (window, renderer, events, frame delay): these are I/O.
- `setAsRegularShape`: it relies on `sinf` and `cosf`, floating-point trigonometry that reals cannot express exactly.
- `projectSliceX` and `resolve1D`: nothing calls them.
- `float` rounding, NaN and IEEE `INFINITY` arithmetic. Values are exact reals, and the INFINITY and `nullptr` sentinels are datatype variants.
- `std::sqrt`: it is a caller-supplied function, required to be the positive root of each edge's squared length. Polygons with a zero-length edge are therefore outside the model. In the source such an edge gives `l == 0`, so its normal becomes NaN and every projection along it is NaN. The comparisons at polygon.cpp:181 and 184 are then false, and `mtvBetween` silently skips that edge.
- The heap allocation of each `mtv` with `new`, and its leak: a result is a value, with `None` for `nullptr`.
- The `std::cout` debug print in `resolveFor`, and the fields that only `render` reads (`color`, `linePositionY`, the `mline` fields).
- Polygons.Polygon.ResolveFor: its own contract states the new position, not that the polygons are then apart; that is `Polygons.ResolvedApart`, about the same vertex lists.
