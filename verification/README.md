# Exact geometry and series compilation: a verified model of GEOS 3.1.1 and PROJ 4.6.1

The project models three groups of components of the repository in Dafny and proves what they are for.

**The exact-geometry kernel of GEOS.** Coordinates are integers: every finite double is an integer multiple of a power of
two, so a finite set of them becomes integral after scaling. Everything rests on `RobustDeterminant.SignOfDet2x2`, the
Euclid-like loop that decides the sign of a determinant. Convexity is expressed through closed half-planes: one point
sequence *encloses* another if every closed half-plane that contains the first contains the second, that is, if the second
lies in the convex hull of the first. On this are built

- the convex hull: octagon pre-filter, radial sort, Graham scan, clean-up of the ring;
- the minimum width by rotating calipers, shown to be the width of the narrowest strip over *all* directions;
- the classification of segment intersections, with `HCoordinate` and the shift to the envelope centre;
- two point-in-ring algorithms, shown to agree, and on strictly convex rings to decide by the sides of the edges alone;
- ring orientation, ring area and the area centroid.

**The bivariate series compiler of PROJ**, over the real numbers: `mk_cheby` cuts small coefficients off, `bch2bps` rewrites
a matrix of Chebyshev coefficients in place as a power series, and `biveval` evaluates either kind. The rewriting preserves
every value, and the error of the result is bounded by the reported residual.

**Smaller components of PROJ**: grid shift interpolation and its iterative inverse (`nad_intr`, `nad_cvt`), the cache of
loaded grids (`pj_gridlist`), and the printer and parser of angles (`rtodms`, `dmstor`).

Loops that update variables are methods with invariants; the classes of the source that update fields are classes; each
method is tied to a specification about which the theorems are proved. `Wrappers.dfy`, `Reals.dfy` and `Plane.dfy` hold what
several modules share.

## Where the code and its promises differ

- `ConvexHull.h` describes the radial order with the opposite orientation; the code puts clockwise points first, and so does
  the model.
- Intersection classification: if a segment is degenerate (both ends equal) and meets the other one, the code answers
  COLLINEAR. `LineIntersector.ReportIsRightWhen` states, as a test on the four points, exactly when the answer is right;
  `LineIntersector.WrongReport` gives an input on which it is not.
- `mk_cheby` marks a failed search for the cut by a negative first residual. If nothing was measured in the first component
  there is no sign to see: `MkCheby.SilentFailure` gives such a matrix, and `MkCheby.SuccessIsReported` says what a caller can
  test instead. After four tries the cut is halved once more without being measured; the bound holds nevertheless.
- If every coefficient of a component is cut off in Chebyshev mode, no row is stored (`mu` is -1) and `ceval` would read in
  front of the rows. `MkCheby.MkCheby` states exactly when that is the case, in terms of the matrix and the resolution;
  `MkCheby.NothingLeft` shows it for any matrix of zeros. In the model the evaluation has the outcome `NoRow` then.
- `nad_cvt` stops as soon as *one* component has settled, so the other may still be far off: `NadCvt.StopsTooEarly`. If one
  component is the same all over the table, there is never a second pass: `NadCvt.ConstantStops`. `NadCvt.AccurateExit`
  states that the last iterate whose shift was looked up is accurate in both components exactly if both have settled. The
  function also gives up after its tenth pass even if that pass has settled: `NadCvt.GivesUpTooSoon` gives a table and a
  point. Whatever ends the iteration, `NadCvt.Convert` bounds the error of a returned point by the factor of the table to the
  power of the passes made, the first guess included.
- `pj_gridlist_from_nadgrids` does not always answer a repeated request as it did the first time. The answer is the number of
  grids, the error and the returned list. `GridLists.SameAnswer` states exactly when the two answers agree: if all names are
  accepted and one of them contributes a grid, or if neither is so and no request since the last deallocation has left an
  array. Two inputs on which they differ: `GridLists.PartialListRemembered`, where the partial list of a failed request is
  returned when asked again, and `GridLists.StaleList`, where a request that fails with the null pointer is answered with the
  array of an earlier one when asked again, at the same number of grids and the same error.
- The list that is returned for a repeated request is null-terminated at the reported number exactly if the request found a
  grid; otherwise its first slot still holds a grid of an earlier request. `GridLists.GridList.FromNadgrids` states both
  directions.
- `rtodms` without fractional digits and without fixed widths strips zeros off whole seconds (10 seconds are written as 1). With
  letters other than one for north or east and one for south or west, the direction may be lost: with E and no letter for the
  other direction, an angle to the west gets neither sign nor letter. `DmsLetters.ReadsBack` states, for all letters, exactly
  which texts are read back as the angle that was written; `DmsLetters.LostDirection` is the example.
- `mk_cheby` reserves as many counts as there are rows and columns together, but uses two for every row, so with more rows than
  columns it writes past the end of the vector.

## Model

| member | source | states |
|---|---|---|
| RobustDeterminant.SignOfDet2x2 | geos-3.1.1/source/algorithm/RobustDeterminant.cpp:44-272 | the result is the sign of the determinant for all integers, after a number of passes logarithmic in both x entries |
| RobustDeterminant.SignOfPositive | geos-3.1.1/source/algorithm/RobustDeterminant.cpp:182-272 | the loop on positive ordered rows keeps sign times determinant and at least quarters the entries with each full pass |
| RobustDeterminant.SignWithNullEntry | geos-3.1.1/source/algorithm/RobustDeterminant.cpp:53-87 | the answer when an entry is zero is the sign of the determinant |
| RobustDeterminant.NormalizeYs | geos-3.1.1/source/algorithm/RobustDeterminant.cpp:89-150 | the y entries become positive and ordered, with the determinant unchanged up to the sign that is kept |
| RobustDeterminant.NormalizeXs | geos-3.1.1/source/algorithm/RobustDeterminant.cpp:152-180 | either the sign is decided, rightly, or the x entries become positive and ordered with the determinant kept up to sign |
| RobustDeterminant.HalfPassSigns | geos-3.1.1/source/algorithm/RobustDeterminant.cpp:191-226 | each early exit of a half-pass is justified by the position of the reduced row in the rectangle of the other |
| Plane.FourPoints | geos-3.1.1/source/algorithm/CGAlgorithms.cpp:40-50 | the orientation terms of four points add up the same along either diagonal |
| Plane.Pluecker | geos-3.1.1/source/algorithm/CGAlgorithms.cpp:40-50 | the three-term relation between the determinants of four vectors |
| Plane.Barycentric | geos-3.1.1/source/algorithm/CGAlgorithms.cpp:40-50 | any affine form at a point is the area-weighted mean of its values at a triangle's corners |
| CGAlgorithms.OrientationIndex | geos-3.1.1/source/algorithm/CGAlgorithms.cpp:40-50 | the index is the sign of twice the signed area of the three points |
| CGAlgorithms.IsPointInRing | geos-3.1.1/source/algorithm/CGAlgorithms.cpp:102-146 | true exactly if an odd number of segments crosses the ray to the right |
| CGAlgorithms.StraddleParity | geos-3.1.1/source/algorithm/CGAlgorithms.cpp:116-136 | a path crosses a horizontal line an odd number of times exactly if it ends on the other side |
| CGAlgorithms.SeparatedCrossing | geos-3.1.1/source/algorithm/CGAlgorithms.cpp:126-136 | if a half-plane holds a straddling segment but not the point, its direction alone decides whether the ray is crossed |
| CGAlgorithms.OddCrossingsAreEnclosed | geos-3.1.1/source/algorithm/CGAlgorithms.cpp:102-146 | a point with an odd crossing count against any closed ring lies in every half-plane that contains the ring |
| RadialOrder.PrecedesTotal | geos-3.1.1/source/algorithm/ConvexHull.cpp:55-80 | around the lowest, then leftmost point the comparison is irreflexive, total on distinct points, with that point first |
| RadialOrder.PrecedesTransitive | geos-3.1.1/source/algorithm/ConvexHull.cpp:55-80 | the comparison is transitive |
| RadialOrder.AngleTransitive | geos-3.1.1/source/algorithm/ConvexHull.cpp:64-68 | clockwise turns around the lowest point compose |
| RadialSort.SortRadially | geos-3.1.1/source/algorithm/ConvexHull.cpp:271-272 | the result holds the same points in strict radial order, with the focal point first |
| RadialSort.SortIsUnique | geos-3.1.1/source/algorithm/ConvexHull.cpp:271-272 | there is only one radially sorted sequence of the same points, so the sorting algorithm does not matter |
| GrahamScan.LongTurns | geos-3.1.1/source/algorithm/ConvexHull.cpp:284-294 | two consecutive clockwise turns in radial order make the longer turns clockwise too |
| GrahamScan.PushKeepsChain | geos-3.1.1/source/algorithm/ConvexHull.cpp:292-293 | pushing a point after the pop loop keeps every triple of the stack turning clockwise |
| GrahamScan.PopKeepsHull | geos-3.1.1/source/algorithm/ConvexHull.cpp:287-291 | a popped point is enclosed by the stack and the new point |
| GrahamScan.ClosedChainIsHull | geos-3.1.1/source/algorithm/ConvexHull.cpp:295-295 | every input point lies on or to the right of every edge of the closed stack, the closing edge included |
| ConvexHull.ConvexHull.ComputeOctPts | geos-3.1.1/source/algorithm/ConvexHull.cpp:120-154 | each of the eight points is extreme among the input in its direction |
| ConvexHull.ConvexHull.ComputeOctRing | geos-3.1.1/source/algorithm/ConvexHull.cpp:159-176 | the ring consists of input points, reaches as far as the input in all eight directions, and is closed if there are three |
| ConvexHull.ReducedSpans | geos-3.1.1/source/algorithm/ConvexHull.cpp:180-212 | every half-plane that contains the points kept by the filter contains all the points |
| ConvexHull.ReducedHasThree | geos-3.1.1/source/algorithm/ConvexHull.cpp:180-212 | at least three points survive of three or more distinct ones |
| ConvexHull.ConvexHull.Reduce | geos-3.1.1/source/algorithm/ConvexHull.cpp:180-212 | the new input points are distinct, at least three, and span the hull of the old ones; kept are the vertices of a ring of points that are extreme in the eight directions and those points that have no odd crossing count against it, or all points if that ring has fewer than three vertices |
| ConvexHull.ConvexHull.PreSort | geos-3.1.1/source/algorithm/ConvexHull.cpp:254-273 | the same points, in radial order around the lowest, then leftmost one |
| ConvexHull.ConvexHull.Scan | geos-3.1.1/source/algorithm/ConvexHull.cpp:277-296 | the pop loop never empties the stack; the result is a closed ring of input points, no triple turns left, every point lies right of every edge and in the hull of the ring |
| HullCleaning.BetweenIsEnclosed | geos-3.1.1/source/algorithm/ConvexHull.cpp:401-423 | a point between two others lies in every half-plane that contains both |
| HullCleaning.StraightIsBetween | geos-3.1.1/source/algorithm/ConvexHull.cpp:401-423 | along the chain, a straight triple always has its middle point between the others, so the coordinate tests miss none |
| HullCleaning.CleanedRing | geos-3.1.1/source/algorithm/ConvexHull.cpp:471-502 | what is kept of a Graham ring turns strictly clockwise everywhere, ends and begins as before, and lies in exactly the same half-planes |
| ConvexHull.ConvexHull.CleanRing | geos-3.1.1/source/algorithm/ConvexHull.cpp:471-502 | the loop keeps exactly the specified points and closes the ring |
| ConvexHull.CleanedHull | geos-3.1.1/source/algorithm/ConvexHull.cpp:452-467 | the cleaned Graham ring gives a line of two distinct points if all input is collinear and a strictly convex ring otherwise, with the hull of the input |
| ConvexHull.NotCollinear | geos-3.1.1/source/algorithm/ConvexHull.cpp:458-466 | three points kept rule out collinear input |
| ConvexHull.ConvexHull.LineOrPolygon | geos-3.1.1/source/algorithm/ConvexHull.cpp:452-467 | a cleaned ring of three coordinates becomes a line of two, any other a polygon |
| ConvexHull.ConvexHull.GetConvexHull | geos-3.1.1/source/algorithm/ConvexHull.cpp:215-250 | for every number of distinct points the result is their hull, by kind of geometry |
| Calipers.FallsToTheEnd | geos-3.1.1/source/algorithm/MinimumDiameter.cpp:244-249 | over an edge of a strictly convex ring the heights of the vertices fall to the end once they fall |
| Calipers.SummitAdvances | geos-3.1.1/source/algorithm/MinimumDiameter.cpp:229-233 | the highest vertex over one edge is no worse than its predecessors over the next edge |
| MinimumDiameter.DistancePerpendicular | geos-3.1.1/source/algorithm/MinimumDiameter.cpp:240-248 | the squared distance of a point from the line of a segment |
| MinimumDiameter.ClimbToMax | geos-3.1.1/source/algorithm/MinimumDiameter.cpp:237-249 | the climb ends, at a vertex of maximal distance over the whole ring, never having passed the ring's end |
| MinimumDiameter.SummitForNext | geos-3.1.1/source/algorithm/MinimumDiameter.cpp:232-232 | the result for one segment is a valid start for the next |
| MinimumDiameter.MinimumDiameter.FindMaxPerpDistance | geos-3.1.1/source/algorithm/MinimumDiameter.cpp:237-263 | the recorded width, point and segment change exactly if the maximal distance over this segment is smaller |
| MinimumDiameter.MinimumDiameter.ComputeConvexRingMinDiameter | geos-3.1.1/source/algorithm/MinimumDiameter.cpp:221-234 | the width is the minimum over edges of the maximum over vertices, and the narrowest strip that contains the ring |
| Strips.LocalIsGlobal | geos-3.1.1/source/algorithm/MinimumDiameter.cpp:244-249 | a vertex that beats its neighbours in a direction beats all vertices |
| Strips.EveryStripAtLeast | geos-3.1.1/source/algorithm/MinimumDiameter.cpp:227-233 | a bound on the width over every edge bounds the width of every strip, in whatever direction, that contains the ring |
| MinimumDiameter.MinimumDiameter.ComputeWidthConvex | geos-3.1.1/source/algorithm/MinimumDiameter.cpp:177-211 | for empty, one-point, two-point and ring hulls alike the result is the width of the points, and the recorded segment is a base of that width: its ends are two different points if there are two, all points lie on one side of its line, as far as the recorded point, and between its ends if they are on one line |
| MinimumDiameter.MinimumDiameter.ComputeMinimumDiameter | geos-3.1.1/source/algorithm/MinimumDiameter.cpp:160-173 | the width of the input points through their hull, with a base segment and a farthest point of the input; a cached result is still right |
| MinimumDiameter.RingBase | geos-3.1.1/source/algorithm/MinimumDiameter.cpp:221-263 | the best edge of a ring with its farthest vertex bounds all points that the ring spans from both sides |
| Envelope.SeparateBoxes | geos-3.1.1/source/geom/Envelope.cpp:61-81 | segments whose envelopes do not meet share no point |
| Envelope.SegmentInItsBox | geos-3.1.1/source/geom/Envelope.cpp:299-312 | the envelope of a segment contains all its points |
| Envelope.BoxTest | geos-3.1.1/source/geom/Envelope.cpp:299-312 | for a point on the line of a segment, lying in the envelope means lying on the segment |
| HCoordinates.WeightIsSkew | geos-3.1.1/source/algorithm/HCoordinate.cpp:47-111 | the homogeneous weight is the cross product of the directions of the segments |
| HCoordinates.MeetIncidence | geos-3.1.1/source/algorithm/HCoordinate.cpp:143-149 | the cross product of two lines lies on both |
| HCoordinates.IntersectionOnLines | geos-3.1.1/source/algorithm/HCoordinate.cpp:47-111 | if the segments are not parallel the weight is not zero and the point lies on both lines |
| Segments.CrossingPoint | geos-3.1.1/source/algorithm/LineIntersector.cpp:355-386 | if each segment's ends lie on opposite sides of the other, or on it, the segments share a point |
| Segments.LinesMeetOnce | geos-3.1.1/source/algorithm/LineIntersector.cpp:695-747 | lines that are not parallel meet in one point at most |
| LineIntersector.HasIntersection | geos-3.1.1/source/algorithm/LineIntersector.cpp:321-330 | true exactly if the point lies on the segment |
| LineIntersector.LineIntersector.ComputeCollinearIntersection | geos-3.1.1/source/algorithm/LineIntersector.cpp:505-691 | for collinear segments the answer and the points are those of the common part |
| LineIntersector.LineIntersector.EndpointIntersection | geos-3.1.1/source/algorithm/LineIntersector.cpp:420-492 | if an orientation is zero, an endpoint that lies on both lines is chosen |
| LineIntersector.LineIntersector.NormalizeToEnvCentre | geos-3.1.1/source/algorithm/LineIntersector.cpp:796-823 | all four points are moved alike so that the common part of the envelopes lies symmetrically about the origin, which is in both envelopes if they meet; sides and directions do not change |
| LineIntersector.LineIntersector.IsInSegmentEnvelopes | geos-3.1.1/source/algorithm/LineIntersector.cpp:787-793 | for a point on both lines, true exactly if it lies on both segments; for any point, exactly if both of its coordinates lie between those of the ends of either segment |
| LineIntersector.LineIntersector.ProperIntersection | geos-3.1.1/source/algorithm/LineIntersector.cpp:695-764 | when all orientations are non-zero, the result lies on both segments and the fallback, an arbitrary point here, is never taken |
| LineIntersector.LineIntersector.ComputeIntersect | geos-3.1.1/source/algorithm/LineIntersector.cpp:334-501 | no, one or more shared points are reported as they are, with the shared point or the ends of the shared segment; proper exactly if no endpoint lies on the other line |
| LineIntersector.ClassificationIsExact | geos-3.1.1/source/algorithm/LineIntersector.cpp:334-501 | the three answers correspond to no, one and more than one shared point |
| LineIntersector.ReportIsRightWhen | geos-3.1.1/source/algorithm/LineIntersector.cpp:334-501 | the answer is right exactly unless one segment is a single point in the envelope and on the line of the other |
| LineIntersector.WrongReport | geos-3.1.1/source/algorithm/LineIntersector.cpp:505-691 | an input on which segments that share one point are reported as sharing several |
| LineIntersector.LineIntersector.ComputeIntersection | geos-3.1.1/source/algorithm/LineIntersector.cpp:90-98 | the stored result, points and proper flag are those of the four points; if a segment is a single point, both stored points are that point |
| PointInRing.IsOnLine | geos-3.1.1/source/algorithm/CGAlgorithms.cpp:150-165 | true exactly if the point lies on a segment of the line |
| PointInRing.LocateInPolygonRing | geos-3.1.1/source/algorithm/PointLocator.cpp:130-141 | boundary, interior or exterior by segment incidence and crossing parity |
| PointInRing.RayCrossingCounter.CountSegment | geos-3.1.1/source/algorithm/RayCrossingCounter.cpp:57-126 | the count grows exactly if the ray is crossed, through all early exits; the flag is set exactly if the point is noticed |
| PointInRing.NoticedOnRing | geos-3.1.1/source/algorithm/RayCrossingCounter.cpp:57-126 | on a closed ring some segment notices the point exactly if the point lies on the ring |
| PointInRing.RayCrossingCounter.LocatePointInRing | geos-3.1.1/source/algorithm/RayCrossingCounter.cpp:38-53 | for every closed ring and point the same location as the point locator's |
| ConvexLocation.InsideCrossesOnce | geos-3.1.1/source/algorithm/CGAlgorithms.cpp:102-146 | a point strictly to the right of all edges of a strictly convex ring has exactly one crossing |
| ConvexLocation.LocationBySides | geos-3.1.1/source/algorithm/PointLocator.cpp:130-141 | on strictly convex clockwise rings a point is located inside, on the boundary or outside exactly as its sides of the edges say |
| RingArea.IsCCW | geos-3.1.1/source/algorithm/CGAlgorithms.cpp:169-252 | the turn at the first highest point, between the nearest points that differ from it, with the degenerate cases |
| RingArea.ClockwiseIsFound | geos-3.1.1/source/algorithm/CGAlgorithms.cpp:169-252 | a ring that is seen to run clockwise from its highest points, convex or not, with straight vertices and repeated points allowed, is not found counter-clockwise |
| RingArea.BackwardsIsFound | geos-3.1.1/source/algorithm/CGAlgorithms.cpp:169-252 | and is when it is walked backwards |
| RingArea.SpikeIsNotFound | geos-3.1.1/source/algorithm/CGAlgorithms.cpp:216-223 | a ring whose highest point lies between equal points, or which has no other point, is not found counter-clockwise |
| RingArea.ConvexOrientation | geos-3.1.1/source/algorithm/CGAlgorithms.cpp:169-252 | weakly convex clockwise rings are not found counter-clockwise, and are when they are walked backwards |
| RingArea.StrictIsWeak | geos-3.1.1/source/algorithm/ConvexHull.cpp:452-467 | strictly convex rings, such as hulls, are among them |
| RingArea.MovedBase | geos-3.1.1/source/algorithm/CentroidArea.cpp:145-148 | moving the base changes the swept area by a term of the path's ends only |
| RingArea.SignedArea | geos-3.1.1/source/algorithm/CGAlgorithms.cpp:360-376 | for a closed ring, minus twice the result is the sum of the triangle areas over any base point |
| RingArea.OrientationAgrees | geos-3.1.1/source/algorithm/CGAlgorithms.cpp:360-376 | on weakly convex rings, with straight vertices and repeated points allowed, orientation and area agree in both directions, whichever vertex the ring begins with |
| CentroidAreas.FourMoments | geos-3.1.1/source/algorithm/CentroidArea.cpp:130-148 | the moment of a quadrilateral is the same however it is cut into triangles |
| CentroidAreas.BaseIsFree | geos-3.1.1/source/algorithm/CentroidArea.cpp:83-104 | the moment of a closed ring does not depend on the base point |
| CentroidAreas.FanBase | geos-3.1.1/source/algorithm/CentroidArea.cpp:83-104 | neither do area and both coordinate moments |
| CentroidAreas.CentroidArea.AddTriangle | geos-3.1.1/source/algorithm/CentroidArea.cpp:107-116 | the totals grow by the signed area and moments of the triangle |
| CentroidAreas.CentroidArea.AddRing | geos-3.1.1/source/algorithm/CentroidArea.cpp:83-104 | the totals grow by those of the ring, whatever the base point: shells one way, holes the other |
| CentroidAreas.CentroidArea.Add | geos-3.1.1/source/algorithm/CentroidArea.cpp:37-50 | resetting the base point for every polygon of a collection leaves the totals right |
| CentroidAreas.HoleTakesAway | geos-3.1.1/source/algorithm/CentroidArea.cpp:83-116 | a hole takes from a polygon exactly what it adds as a polygon of its own |
| CentroidAreas.AllTakenAway | geos-3.1.1/source/algorithm/CentroidArea.cpp:83-116 | nothing is left of a polygon with itself as a hole |
| CentroidAreas.CollectionIsSum | geos-3.1.1/source/algorithm/CentroidArea.cpp:37-50 | a collection of one part adds what the part adds, and two collections together the sum |
| CentroidAreas.CentroidArea.AddSequence | geos-3.1.1/source/algorithm/CentroidArea.cpp:51-57 | a single ring counts as a shell |
| CentroidAreas.CentroidArea.GetCentroid | geos-3.1.1/source/algorithm/CentroidArea.cpp:70-75 | there is a centroid exactly if the areas do not cancel, and it is the mean by area |
| CentroidAreas.ConvexDirectionIsFree | geos-3.1.1/source/algorithm/CentroidArea.cpp:83-104 | a weakly convex ring contributes the same in either direction |
| CentroidAreas.DirectionIsFree | geos-3.1.1/source/algorithm/CentroidArea.cpp:83-104 | so does any ring whose directions isCCW tells apart |
| CentroidAreas.CentroidInside | geos-3.1.1/source/algorithm/CentroidArea.cpp:62-75 | a polygon with a weakly convex shell has an area, and its centroid lies in every half-plane that contains the shell |
| Chebyshev.ClenshawIsValue | proj-4.6.1/src/biveval.c:9-34 | Clenshaw's recurrence computes the value of a Chebyshev series |
| Chebyshev.ToPowerValue | proj-4.6.1/src/bch2bps.c:37-64 | the recurrence on polynomials gives a power series with the same value everywhere |
| SeriesMatrix.ToRangeValue | proj-4.6.1/src/bch2bps.c:92-109 | the move to another range preserves values at corresponding arguments |
| SeriesMatrix.RowsThenColumns | proj-4.6.1/src/bch2bps.c:134-139 | converting rows and then columns converts the double series |
| ColumnSeries.ToPowerColumn | proj-4.6.1/src/bch2bps.c:66-90 | the conversion by whole rows converts every column |
| ColumnSeries.ToRangeColumn | proj-4.6.1/src/bch2bps.c:111-125 | the move by whole rows moves every column |
| Bch2Bps.Rows | proj-4.6.1/src/bch2bps.c:37-64 | the in-place loops leave the converted row in the buffer |
| Bch2Bps.RowShft | proj-4.6.1/src/bch2bps.c:92-109 | the in-place loops leave the moved row in the buffer |
| Bch2Bps.Cols | proj-4.6.1/src/bch2bps.c:66-90 | the in-place loops leave the converted columns in the buffer |
| Bch2Bps.ColShft | proj-4.6.1/src/bch2bps.c:111-125 | the in-place loops leave the moved columns in the buffer |
| Bch2Bps.Bch2Bps | proj-4.6.1/src/bch2bps.c:127-143 | the rewritten matrix, as a power series, has for all arguments the value of the original Chebyshev series at the scaled arguments; it fails exactly without rows or columns |
| Bch2Bps.CompiledValue | proj-4.6.1/src/bch2bps.c:127-143 | the same for the composed transformations of matrices |
| RealSeries.TrimmedValue | proj-4.6.1/src/mk_cheby.c:83-144 | dropping trailing zeros of rows and trailing zero rows changes no value of either kind |
| RealSeries.ChebyshevBound | proj-4.6.1/src/mk_cheby.c:54-62 | Chebyshev polynomials stay within -1 and 1 there |
| Bivevals.Bpseval | proj-4.6.1/src/biveval.c:53-78 | nested Horner schemes give the value of the stored power series, empty rows included |
| Bivevals.Biveval.Ceval | proj-4.6.1/src/biveval.c:9-34 | nested Clenshaw recurrences give the value of the stored Chebyshev series, empty rows included; nothing exactly if there is no row |
| Bivevals.Biveval.Bcheval | proj-4.6.1/src/biveval.c:36-51 | the value at the scaled argument; an error exactly if the argument lies outside the rectangle of the series by more than 0.000005 of its side in either direction; and else nothing exactly if a component has no row |
| Bivevals.Biveval.Evaluate | proj-4.6.1/src/biveval.c:81-88 | the value of the series, whichever kind it is, with the same exceptions for the Chebyshev kind |
| Bivevals.RangeIsRectangle | proj-4.6.1/src/biveval.c:36-43 | in terms of the corners of the range, which arguments are in range; those of the rectangle all are |
| MkCheby.Eval | proj-4.6.1/src/mk_cheby.c:6-19 | the absolute sums of the coefficients below the limit |
| MkCheby.Analyse | proj-4.6.1/src/mk_cheby.c:54-62 | the first of four halved cuts that drops less than allowed, or the failure mark, as functions of the matrix and the resolution |
| MkCheby.CutIsFirstThatFits | proj-4.6.1/src/mk_cheby.c:54-62 | the cut is the limit if that fits, else the greatest of its halves, quarters and eighths that does, else a sixteenth |
| MkCheby.NothingLost | proj-4.6.1/src/mk_cheby.c:54-80 | a series of which every coefficient is zero or no smaller than the limit is kept as it is, with nothing reported |
| Truncation.ResidualIsChange | proj-4.6.1/src/mk_cheby.c:6-19 | what is measured is the absolute sum of what the cut changes, no more and no less |
| MkCheby.ResidBounds | proj-4.6.1/src/mk_cheby.c:54-62 | the magnitude of what is reported bounds what is cut, also after the unmeasured halving |
| MkCheby.SuccessIsReported | proj-4.6.1/src/mk_cheby.c:61-62 | success is visible exactly in both reported components; the sign appears exactly if something was measured |
| MkCheby.SilentFailure | proj-4.6.1/src/mk_cheby.c:61-62 | a matrix on which the search fails without a negative sign |
| MkCheby.NothingLeft | proj-4.6.1/src/mk_cheby.c:63-80 | of a matrix of zeros no row is left |
| Truncation.CutError | proj-4.6.1/src/mk_cheby.c:63-80 | for arguments within -1 and 1 the cut series differs from the original by the residual at most |
| MkCheby.CutRows | proj-4.6.1/src/mk_cheby.c:63-80 | all rows are cut, and the counts are the least that leave out no coefficient that counts |
| MkCheby.MeasureRows | proj-4.6.1/src/mk_cheby.c:84-96 | the counts of the rewritten matrix, by non-zero coefficients |
| MkCheby.Store | proj-4.6.1/src/mk_cheby.c:103-122 | the stored rows are the prefixes of the given lengths |
| MkCheby.MkCheby | proj-4.6.1/src/mk_cheby.c:39-164 | in both modes the stored series has exactly the values of the cut series, which is cut at the limit itself if that fits, hence differs from the original by at most the reported residual within the rectangle; no row ends with a coefficient that does not count; no row is stored exactly if everything was cut |
| GridLists.GridList.Append | proj-4.6.1/src/pj_gridlist.c:134-157 | the list grows by one grid and stays null-terminated within its capacity, through every growth |
| GridLists.GridList.Initialise | proj-4.6.1/src/pj_gridlist.c:163-178 | a name is initialised only if it never was before |
| GridLists.GridList.Merge | proj-4.6.1/src/pj_gridlist.c:112-183 | the recursion ends; the list grows by the grids of that file up to the first invalid one, whatever was cached |
| GridLists.GridList.FromNadgrids | proj-4.6.1/src/pj_gridlist.c:195-274 | the list holds exactly the grids that the files have for the requested names, in order; the first answer depends on the files only; a repeated request changes nothing, its answer agrees with the first exactly as SameAnswer says, and its list is null-terminated at the reported number exactly if a grid was found |
| GridLists.GridList.Deallocate | proj-4.6.1/src/pj_gridlist.c:80-103 | everything is forgotten |
| GridLists.SameAnswer | proj-4.6.1/src/pj_gridlist.c:203-211 | a repeated request gets the same number, error and list exactly if all names are accepted and one contributes a grid in time, or neither is so and no request so far has left an array |
| GridLists.FoundWhen | proj-4.6.1/src/pj_gridlist.c:230-274 | a request succeeds exactly if all its names are accepted, and leaves a list exactly if some name contributes a grid in time |
| GridLists.FoundInOrder | proj-4.6.1/src/pj_gridlist.c:112-274 | in terms of the files: the list holds, for each name looked up, the grids before the first unreadable one, in the order of the names and of the file, and nothing else; the request succeeds exactly if no name is refused |
| GridLists.RelaxedRequest | proj-4.6.1/src/pj_gridlist.c:235-262 | making names optional changes nothing about a request that succeeds |
| GridLists.OptionalGrid | proj-4.6.1/src/pj_gridlist.c:235-274 | an optional grid is found like any other, and if it is missing there is no error |
| GridLists.PartialListRemembered | proj-4.6.1/src/pj_gridlist.c:203-211 | a failed request that is answered with a list the second time, whatever the array held |
| GridLists.StaleList | proj-4.6.1/src/pj_gridlist.c:203-211 | a failed request that is answered with the null pointer first and with the grid of an earlier request the second time |
| GridLists.RequestsJoined | proj-4.6.1/src/pj_gridlist.c:230-264 | names written with commas and at signs are read back, except an empty one at the end |
| Interpolation.CellsAgree | proj-4.6.1/src/nad_intr.c:47-63 | neighbouring cells agree where they meet |
| Interpolation.SurfaceByWeights | proj-4.6.1/src/nad_intr.c:52-63 | the weighted mean of the four corners is the bilinear surface |
| Interpolation.SurfaceSlope | proj-4.6.1/src/nad_intr.c:47-63 | across any number of cells the surface changes by no more than the differences of adjacent nodes allow |
| NadIntr.Locate | proj-4.6.1/src/nad_intr.c:16-46 | a cell is found exactly for positions on the line or a hair outside, and cell and fraction make up the clamped position |
| NadIntr.CoversRectangle | proj-4.6.1/src/nad_intr.c:16-46 | the table covers its rectangle and the 10^11-th part of a cell more on all four sides |
| NadIntr.Interpolate | proj-4.6.1/src/nad_intr.c:8-65 | all table indices are in range, and the value is that of the interpolated surface, or none exactly outside |
| NadIntr.ShiftAtNode | proj-4.6.1/src/nad_intr.c:8-65 | a node returns its own entry |
| NadIntr.ShiftInCell | proj-4.6.1/src/nad_intr.c:52-63 | the value lies between the least and the greatest of the corners |
| NadCvt.Adjlon | proj-4.6.1/src/adjlon.c:12-18 | the result differs by whole turns and lies within the range |
| NadCvt.AdjlonUndoesTurns | proj-4.6.1/src/adjlon.c:12-18 | away from the ends of the range whole turns are undone |
| NadCvt.Invert | proj-4.6.1/src/nad_cvt.c:20-61 | which iterate is returned: the first that has settled in one component or has left the table, and none exactly after ten passes; its distance from any exact inverse is bounded by the factor to the power of its number |
| NadCvt.Convert | proj-4.6.1/src/nad_cvt.c:9-71 | the forward shift and the inverse, in absolute coordinates, with the same bound up to whole turns |
| NadCvt.ConvertedError | proj-4.6.1/src/nad_cvt.c:9-71 | the bound with the factor taken from the entries of the table |
| NadCvt.AccurateExit | proj-4.6.1/src/nad_cvt.c:50-52 | after a settled pass, the iterate before it is shifted to the goal within the tolerance in both components exactly if both have settled; the returned one then misses the goal by the factor times the tolerance at most, and the exact inverse accordingly |
| Contraction.FixedPointIsInverse | proj-4.6.1/src/nad_cvt.c:23-53 | the fixed points of a pass are the exact inverses |
| Contraction.ErrorShrinks | proj-4.6.1/src/nad_cvt.c:24-53 | every pass and the first guess shrink the distance from the exact inverse by the Lipschitz factor |
| Contraction.InverseIsUnique | proj-4.6.1/src/nad_cvt.c:24-53 | there is one exact inverse at most if the factor is below one |
| Contraction.Residual | proj-4.6.1/src/nad_cvt.c:50-52 | the change of a pass is the miss of the forward shift, which then shrinks by the factor |
| Contraction.AccurateWhen | proj-4.6.1/src/nad_cvt.c:50-52 | an iterate is shifted to the goal within a tolerance exactly if the next pass moves it by no more |
| Contraction.ErrorByChange | proj-4.6.1/src/nad_cvt.c:50-52 | the change of a pass bounds the distance from the exact inverse after it |
| NadCvt.TableContracts | proj-4.6.1/src/nad_intr.c:47-63 | the factor is bounded by the differences of adjacent entries over the size of a cell |
| NadCvt.StopsTooEarly | proj-4.6.1/src/nad_cvt.c:52-52 | a table on which one component at rest ends the inverse while the other is wrong by a sixteenth |
| NadCvt.ConstantStops | proj-4.6.1/src/nad_cvt.c:52-52 | if one component of the table is constant, the inverse ends at the second iterate at the latest |
| NadCvt.GivesUpTooSoon | proj-4.6.1/src/nad_cvt.c:52-61 | a table and a point for which nothing is returned although the tenth pass settles in both components |
| NadCvt.RoundTrip | proj-4.6.1/src/nad_cvt.c:14-17 | the exact inverse in absolute coordinates is shifted forward to the given point, up to whole turns |
| Rtodms.Rtodms.SetRtodms | proj-4.6.1/src/rtodms.c:22-39 | the resolution is the power of ten of the digits; other values change nothing |
| Rtodms.Rtodms.StripZeros | proj-4.6.1/src/rtodms.c:63-67 | the edit takes out trailing zeros, and the point if it comes last then, and nothing else |
| Rtodms.Rtodms.Write | proj-4.6.1/src/rtodms.c:41-75 | the text for an angle in all modes and with all signs |
| Rtodms.PartsAddUp | proj-4.6.1/src/rtodms.c:52-57 | degrees, minutes and seconds add up to the rounded count; minutes and seconds stay below sixty |
| DmsForms.FixedWidths | proj-4.6.1/src/rtodms.c:22-63 | with fixed widths only the number of digits of the degrees decides how long the text is and where its marks stand |
| DmsForms.ShortForm | proj-4.6.1/src/rtodms.c:58-75 | otherwise the text ends with the last field that is not zero, or with the degrees |
| DmsForms.ShortSecondsEnd | proj-4.6.1/src/rtodms.c:60-67 | the seconds end in a digit, and in a zero only if their whole fraction was zeros |
| Dmstor.ParseFields | proj-4.6.1/src/dmstor.c:41-70 | the loop reads fields in order, or fails; numbers are those that strtod of ISO C 90 reads, exponents included |
| Dmstor.Parse | proj-4.6.1/src/dmstor.c:22-80 | the angle, where it ends, or the error, for every text |
| DmsMarks.MarkedNumber | proj-4.6.1/src/dmstor.c:41-80 | a number with a mark is read as so many radians, degrees, minutes or seconds, and negated after a minus sign |
| DmsMarks.TwoMarks | proj-4.6.1/src/dmstor.c:41-70 | a second marked number must be of a smaller unit, then both add up; otherwise, and for radians, there is an error |
| DmsMarks.UnmarkedNumber | proj-4.6.1/src/dmstor.c:41-80 | a whole number alone, or before a letter for the direction, is read as degrees, and negated before a letter for south or west |
| DmsMarks.UnmarkedSecond | proj-4.6.1/src/dmstor.c:41-70 | after degrees or minutes with a mark, a number without one is of the next smaller unit |
| DmsMarks.WrittenNumbers | proj-4.6.1/src/dmstor.c:41-80 | for instance whole numbers of radians and degrees, and radians with a fraction |
| DmsMarks.SpacesSkipped | proj-4.6.1/src/dmstor.c:30-33 | spaces in front move the end and change nothing else |
| DmsMarks.SignBefore | proj-4.6.1/src/dmstor.c:36-80 | a plus sign makes no difference, nor does any sign before a text with a letter for the direction |
| DmsMarks.OnlyTheFirst | proj-4.6.1/src/dmstor.c:30-33 | of a longer text the first 63 characters are read |
| DmsMarks.RestIgnored | proj-4.6.1/src/dmstor.c:30-33 | what comes after a character that is not visible is not read |
| DmsForms.ExponentNumeral | proj-4.6.1/src/dmstor.c:42-43 | digits with an exponent are worth so many times the power of ten, or as many parts |
| DmsRoundTrip.RoundTrip | proj-4.6.1/src/rtodms.c:41-75 | with a letter for north or east and one for south or west, or with none, every text is read by dmstor to its end with the right sign, and as exactly the rounded count exactly if no digit was stripped off whole seconds |
| DmsLetters.ReadsBack | proj-4.6.1/src/rtodms.c:41-75 | for all letters: the text is read to its end and as exactly the signed rounded count if and only if no digit was stripped and the minus sign or the letter gives the direction |
| DmsLetters.LostDirection | proj-4.6.1/src/rtodms.c:45-50 | letters with which an angle to the west is not read back |
| DmsLetters.OtherLetter | proj-4.6.1/src/dmstor.c:70-80 | a letter that dmstor does not know is left over, unless it is a digit after a text without seconds |
| DmsRoundTrip.PlainMisread | proj-4.6.1/src/rtodms.c:60-67 | what is read instead when whole seconds lose a zero |
| DmsRoundTrip.Rounded | proj-4.6.1/src/rtodms.c:51-51 | the rounded count is within half a unit of the angle |

## Left out

- Floating-point rounding: coordinates are exact integers, series and grids exact reals. `NotRepresentableException`,
  `CentralEndpointIntersector` and `PrecisionModel` exist because of rounding; `CentralEndpointIntersector` appears only as the
  arbitrary point of which `ProperIntersection` shows that it is never used.
- Z coordinates, `toString`, debugging output, `getenv`, memory allocation failure and the freeing of memory.
- `std::sort`, `std::set` and `std::unique` are modelled by insertion into sorted sequences and by removal of equal
  neighbours; the order is unique, so their algorithms do not matter.
- RadialSort.SortRadially: does not model the algorithm of the library sort, only its result.
- Square roots: distances in `MinimumDiameter` are kept squared; a comparison of squares of non-negative numbers decides the
  same way.
- The `isConvex` hint of `MinimumDiameter`, which skips the hull; the accessors that build geometries from the result.
- `rows` in `bch2bps.c` writes one element past its scratch vector `dd` when it clears it; the scratch vector has one element
  more in the model.
- The rows of a matrix buffer are values that are replaced as a whole; that a row could be shared by two row pointers is not
  expressed.
- `bchgen`, which samples a projection to fill the matrix: the matrix is an input. Failure of `mk_cheby` before the series
  exists is one result, without the release of the variable that is not yet set there.
- MkCheby.CutRows: does not model that the two vectors of counts share one allocation of `nu + nv` elements, of which `2 * nu` are
  written; the model gives each component its own counts, as the code needs them if `nu <= nv`.
- Bivevals.Biveval.Ceval: does not model what the read in front of the rows would give when there are none; that outcome is a
  case of its own.
- Grid file loading: what `pj_gridinfo_init` finds under a name is given by a map from names to readable parts, with a stub for
  names that are not in it. The fixed size of the buffer for a name is modelled only as the limit that is tested.
- Dmstor.Parse: `strtod` is that of ISO C 90 (section 7.10.1.4), which reads decimal numbers with a point and an exponent; the
  model leaves out hexadecimal numbers, which later standards add, and the result for numbers beyond the range of `double`.
- The table of units in `dmstor` and the factor in `rtodms` are exact fractions of one degree. The character codes are those of
  ASCII.
- The line, polygon and general forms of `PointLocator::locate`, `MCPointInRing` and `SIRtreePointInRing`, whose index
  structures are separate components.
- The three-point form of `LineIntersector::computeIntersection`, edge distances and index bookkeeping: easy members beside
  the classification.
- Points inside rings that are not convex: that an odd crossing count means a point inside is shown as far as half-planes can
  tell, and exactly for strictly convex rings only.
- Orientation of other rings: `isCCW` is modelled for every closed ring and shown to be right for rings that are seen to run one
  way from their highest points. That it agrees with the area is proved for weakly convex rings; for others it needs that the
  ring does not cross itself.
- All map projections, geodesics and geocentric conversion; the C API, the command-line programs and the examples.
