# IsoVistGH isovist engine — a Dafny model

IsoVistGH computes a 2D isovist. This is the part of a planar region that an observer
point sees along unobstructed straight lines. The region is given as a closed master
boundary plus closed voids (obstacles) inside it. This project models the engine's
decision logic and proves properties of that model. The RhinoCommon geometry kernel
(boolean union, intersection and difference, curve–curve intersection, split,
simplify, join, area, containment relationship, closest point) is a record of
uninterpreted total functions, `GeometryKernel.Kernel`. Every statement holds for
every kernel.

Modules, in dependency order:

- `Wrappers`: `Option` and `Result`.
- `Primitives`: points, vectors, planes, segments and curves over `real`. A curve is
  the non-empty chain of segments `DuplicateSegments` returns; a segment records
  whether it is a `LineCurve`.
- `GeometryKernel`: the kernel record. It also holds `EuclideanNorm`, the only
  assumption about the kernel, used only by the far-corner lemmas.
- `Geometry`: `_isPtOnPlane`, `PlaneFromRegion`, both `_areCoplanar` overloads and
  `IsPtOnCurve` (util_Geometry.cs).
- `Segments`: `CurvedSegIDs`, `NoCurvedSegs` and `TessellatePartOfCurve`.
- `Regions`: `MasterRegionVoids`, the region classifier. Its area-keyed
  `SortedList` is a strictly ascending sequence of entries.
- `Difference`: `DifferenceRegionRegion` and its inner `BooleanDifferenceRecursive`.
- `Visibility`: the per-edge rules of `_isoVist2D_` (Utilities/util_Visibility.cs).
  These are `_triangularRegionPts` and `_triangularRegion`, the genuine-intersection
  filter, the unseen wedges behind master edges (step 1), the shadow cones behind
  void segments and the reveal triangles in front of them (step 2).
- `Retry`: the tolerance-escalation loop at the end of `_isoVist2D_`.
- `Isovist`: `_isoVist2D_` and the two public `IsoVist2D` entry points.

Run-time failures of the C# code are explicit error variants:

- `AreaUndefined` (classifier) models `AreaMassProperties.Compute(polygon).Area` on a
  region whose area cannot be computed, which throws when there are several regions.

- `NonLineVoidSegment` models the `foreach (LineCurve segment in ...)` cast on a void
  segment that is not a line.
- `EmptyVisibleUnion` models `regions[0]` when the final union is empty.
- `OutOfFuel` is the model's bound on the recursion of `BooleanDifferenceRecursive`.
  It re-runs every extra fragment against the whole subtractor list, so nothing in
  the code bounds its depth. `Difference.DifferenceFuelMonotone` shows that more fuel
  never changes an answer already found.

A failing area computation, which the C# code catches as an exception, is the kernel
predicate `areaDefined`. The degenerate triangle is then left out, exactly as the
empty `catch` leaves it out.

Two behaviours of the source are visible in the model's contracts.

- When the first region is planar but not closed, `PlaneFromRegion` returns the
  default plane, whose normal is zero. Every start point then passes `_isPtOnPlane`,
  so the array test reduces to "all regions are planar"
  (`Geometry.DefaultPlaneHoldsEveryPoint`).
- The sorted list keys regions by area. A later region with exactly the same area as
  an earlier one is dropped: it can be neither master nor void.

## Model

| member | source | states |
|---|---|---|
| `Geometry.AreCoplanar` | util_Geometry.cs:62-73 | The array test is true exactly when every region is planar and the start point of every region after the first lies within the tolerance of the first region's plane; any non-planar region makes it false |
| `Geometry.DefaultPlaneHoldsEveryPoint` | util_Geometry.cs:259-267 | The plane of a curve that is not both closed and planar is the all-zero default plane, and with a non-negative tolerance every point passes the on-plane test against that curve's plane |
| `Geometry.PairIsTwoRegionCase` | util_Geometry.cs:86-92 | The two-curve overload of `_areCoplanar` decides exactly what the array overload decides on the two-element array |
| `Geometry.UnitizeIsUnit` | Utilities/util_Visibility.cs:27-28 | Under an exact length, unitizing a vector of positive length divides it by its length and gives squared length 1 |
| `Segments.CurvedSegIDs` | util_Geometry.cs:165-183 | The returned indices are strictly increasing and within the segment count, and an index is listed exactly when that segment has a sampled tangent not parallel to its chord |
| `Segments.NoCurvedSegs` | util_Geometry.cs:247-249 | The count equals the number of distinct curved segment indices |
| `Segments.IncreasingHasDistinctElements` | util_Geometry.cs:177-178 | A strictly increasing index list has as many distinct elements as entries, so each segment is listed at most once |
| `Segments.TessellatedSegments` | util_Geometry.cs:319-328 | Before joining there is one segment per input segment; listed indices are tessellated and every other segment passes through unchanged |
| `Segments.Replaced` | util_Geometry.cs:321-328 | From a given index on, the same per-index replace-or-keep rule and the matching length |
| `Segments.ListedIndicesOnlyMatter` | util_Geometry.cs:322 | Only which in-range indices `ids` contains matters; order, repetition and out-of-range entries do not change the result |
| `Segments.NothingListedNothingChanged` | util_Geometry.cs:319-328 | With an empty `ids` list every segment is kept as it is |
| `Regions.Insert` | util_Geometry.cs:203-205 | Adding a new key to the sorted list keeps the keys strictly ascending, adds exactly one entry and loses none |
| `Regions.AddIfNewAreaExtends` | util_Geometry.cs:201-206 | After each region, the list holds exactly the first region seen for each area met so far, keys ascending, and every area met is a key |
| `Regions.SortByArea` | util_Geometry.cs:200-206 | After all regions, the sorted list holds exactly one entry per distinct area, from the first region with that area, in ascending area order |
| `Regions.LastEntryIsMaster` | util_Geometry.cs:208-209 | The last entry is the first region of maximum area among all inputs |
| `Regions.CollectVoids` | util_Geometry.cs:212-221 | The voids are exactly the entries before the last that the kernel reports `BInsideA` of the master, in list order |
| `Regions.PickedVoidsAscend` | util_Geometry.cs:214-219 | The voids have strictly ascending areas, so none appears twice |
| `Regions.VoidsAreKeptInsideRegions` | util_Geometry.cs:214-219 | A curve is a void exactly when it is a kept region of smaller area than the master and the kernel reports it inside the master |
| `Regions.MasterRegionVoids` | util_Geometry.cs:193-237 | Null when the regions are not coplanar; one region gives itself as master with no voids; with several, an area failure exactly when some region's area cannot be computed, otherwise null exactly when the first maximum-area region is invalid, and otherwise master, voids and plane as above |
| `Difference.Pass` | util_Geometry.cs:289-310 | The loop over the subtractors emits at least one curve, and the last curve emitted is the curve left after every cutting subtractor has replaced it by the first difference fragment |
| `Difference.Fragments` | util_Geometry.cs:299-304 | Each extra fragment yields at least one curve of its own: what is left of it after the whole subtractor list is among the outputs |
| `Difference.DifferenceRegionRegion` | util_Geometry.cs:283-318 | Every input region yields at least one output curve: what is left of it after the whole subtractor list is among the outputs |
| `Difference.UncutCurveUnchanged` | util_Geometry.cs:290-309 | A curve that no subtractor cuts (coplanar and `MutualIntersection`) is emitted unchanged and alone |
| `Difference.NothingCutNothingChanged` | util_Geometry.cs:312-317 | When no subtractor cuts any region, the result is the input regions themselves |
| `Difference.PassFuelMonotone` | util_Geometry.cs:289-310 | A finished run of the subtractor loop gives the same result with more recursion depth allowed |
| `Difference.FragmentsFuelMonotone` | util_Geometry.cs:301-303 | The same for the recursive calls on extra fragments |
| `Difference.DifferenceFuelMonotone` | util_Geometry.cs:312-317 | The same for the whole difference |
| `Difference.SingleFragmentsNeedNoFuel` | util_Geometry.cs:297-304 | A kernel whose differences never return more than one fragment never recurses, and each region yields exactly its surviving curve |
| `Visibility.FarCornerAtLength` | Utilities/util_Visibility.cs:25-30 | Under an exact length, a far corner is at squared distance length² from the observer, on the ray from the observer through the end point it was aimed at |
| `Visibility.TriangularRegionPtsAtLength` | Utilities/util_Visibility.cs:24-31 | Both corners of `_triangularRegionPts` lie at length from the observer, toward the segment's start and end points respectively |
| `Visibility.FarCornerOfObserverIsObserver` | Utilities/util_Visibility.cs:27-29 | An end point equal to the observer gives the observer itself as corner, whatever the kernel, because unitizing leaves the zero vector alone |
| `Visibility.GenuinePoints` | Utilities/util_Visibility.cs:69-76 | `intPts` has one point per genuine event (its two points closer than the tolerance), and holds exactly the first points of the genuine events |
| `Visibility.ProbeHitsCountsGenuineEvents` | Utilities/util_Visibility.cs:148-155 | The probe's hit count is the number of genuine intersection events |
| `Visibility.FarPiece` | Utilities/util_Visibility.cs:83-91 | The first split piece away from the observer is closed by its chord and added; when every piece touches the observer nothing is added |
| `Visibility.EdgeWedge` | Utilities/util_Visibility.cs:58-94 | A master edge adds a wedge only when the observer is off the edge and the probe to its midpoint meets the master more than once, and in that case it adds the closed far piece of the far triangle split by the edge's extrusion |
| `Visibility.UnseenWedges` | Utilities/util_Visibility.cs:57-94 | The unseen list is empty exactly when no edge adds a wedge; every curve in it comes from some edge's wedge, and every edge's wedge is in it |
| `Visibility.ValidCurves` | Utilities/util_Visibility.cs:99-100 | The filter keeps exactly the valid curves |
| `Visibility.UnionOrRaw` | Utilities/util_Visibility.cs:101-107 | A non-empty union is returned; an empty union gives the raw curves themselves, so the result is empty only when the curves and their union both are |
| `Visibility.SelfVisibleArea` | Utilities/util_Visibility.cs:97-111 | With no unseen wedge the self-visible area is exactly the master; any finished result has at least one curve |
| `Visibility.SelfVisibleAreaSubtractsWedges` | Utilities/util_Visibility.cs:98-108 | With some unseen wedge, the self-visible area is the master minus the union of the valid wedges, or minus the valid wedges themselves when that union is empty |
| `Visibility.VoidCones` | Utilities/util_Visibility.cs:121-133 | The per-void triangle list holds exactly the shadow cones of that void's segments whose area computation succeeds; zero-area cones are dropped |
| `Visibility.Shadows` | Utilities/util_Visibility.cs:119-135 | The triangle list holds exactly the curves of the per-void unions of shadow cones |
| `Visibility.ShadowedArea` | Utilities/util_Visibility.cs:137-171 | The shadowed area, once finished, has at least one curve |
| `Visibility.ShadowedAreaSubtractsCones` | Utilities/util_Visibility.cs:137-171 | The shadowed area is the master minus the union of the per-void cone unions, or minus those cone unions themselves when that union is empty |
| `Visibility.VoidReveals` | Utilities/util_Visibility.cs:141-168 | A void segment gives a reveal triangle exactly when its probe meets its own void once and the triangle's area computation succeeds |
| `Visibility.Reveals` | Utilities/util_Visibility.cs:140-170 | The additional triangles are exactly those of the voids' segments |
| `Visibility.RevealsAreExactlyTheRevealedSegments` | Utilities/util_Visibility.cs:146-168 | A curve is an additional triangle exactly when it is the triangle of some void segment revealed as above |
| `Retry.RetryIntersection` | Utilities/util_Visibility.cs:184-193 | No retry when the first intersection is non-empty; otherwise retries at multipliers 100, 200, … stop at the first non-empty result, at most 50 are made, and an empty final result means all 50 failed |
| `Retry.NonEmptyIsKept` | Utilities/util_Visibility.cs:186 | A non-empty first intersection is returned as it is |
| `Retry.RetriedAsIsUnique` | Utilities/util_Visibility.cs:185-192 | The loop's outcome and its number of retries are determined by its inputs |
| `Isovist.IsoVist2D` | Utilities/util_Visibility.cs:40-194 | With no voids, the self-visible area is returned. A non-line void segment is an error. Otherwise the shadowed area and the reveal triangles are united; an empty union is an error, and the result is the retried intersection of the first self-visible curve with the first united curve |
| `Isovist.IsoVist2DWithoutVoids` | Utilities/util_Visibility.cs:210-212 | The no-void entry point returns the self-visible area, which has at least one curve, and fails only for lack of fuel; when no master edge adds a wedge it returns exactly the master |

## Left out

- The geometry kernel (RhinoCommon) is foreign code. Its operations are uninterpreted
  functions, so nothing is proved about the shapes it produces.
- Floating point: coordinates, lengths and tolerances are exact `real`s, and the
  length of a vector is the kernel's `norm`. Exact lengths are assumed only for the
  far-corner lemmas.
- The tolerance `RhinoDoc.ActiveDoc.ModelAbsoluteTolerance` (util_Geometry.cs:9) is
  the explicit parameter `tol`.
- `PolygonBoundingBoxProperties` (util_Geometry.cs:116-135), with its 1e8 sentinel
  fold, is the kernel's `boundingDiagonal`. Only the factor 1.1 applied to it is
  modelled.
- The plane fit of `PlaneFromRegion` is modelled as written: three points at 0, 0.33
  and 0.66 of the length, otherwise the default plane. Nothing is claimed about how
  well that plane fits.
- `_tesselateCurve` and `DivideByCount` are the kernel's `tessellate` and
  `tangentSamples`.
- `_triangularRegion` joins three end-to-end lines into one closed polyline. The
  model builds that polyline directly instead of calling `JoinCurves`.
- `area2.ToList()` at Utilities/util_Visibility.cs:181 discards its result, so it
  has no effect and is not modelled.
- `Simplify` is assumed always to return a curve. A `null` from it would reach
  `CreateBooleanIntersection` (Utilities/util_Visibility.cs:188-189); that case is not
  modelled.
- The boolean union and intersection are assumed always to return an array, possibly
  empty; a `null` from them is not modelled. A `null` from the boolean difference is
  handled by the source (util_Geometry.cs:297) and is the empty result here.
- Geometry.UnitizeIsUnit, Visibility.FarCornerAtLength: they state the squared
  distance rather than the distance, because taking square roots is left to the
  kernel's `norm`.
- Difference.DifferenceRegionRegion: its recursion depth is bounded by `fuel`. A
  result of `None` stands for a run the C# code might finish, or might never finish,
  at greater depth.
- Regions.MasterRegionVoids: requires at least one region. The source indexes
  `regions[0]` and its caller never passes an empty array.
- The Grasshopper components, the converters, painting and UI are not part of this
  model. That covers IsoVist2D.cs, GH_Comp/, util_GHConverter.cs, obj_Component.cs,
  Utilities/obj_Component.cs, Utilities/obj_Painter.cs and MyComponent1.cs.
