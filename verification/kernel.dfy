/** The geometry kernel the engine calls into. Its operations are foreign code,
    so the model takes them as a record of uninterpreted total functions; the
    engine's decisions are stated for every kernel. */
module GeometryKernel {
  import opened Primitives

  /** How two planar closed curves A and B sit relative to each other. */
  datatype Containment = Disjoint | MutualIntersection | AInsideB | BInsideA

  /** One curve-curve intersection event: the point found on each of the two curves. */
  datatype IntersectionEvent = IntersectionEvent(pointA: Point, pointB: Point)

  datatype Kernel = Kernel(
    /** Euclidean length in floating point (`Vector3d.Length`, `Point3d.DistanceTo`). */
    norm: Vector -> real,
    isPlanar: Curve -> bool,
    isClosed: Curve -> bool,
    isValid: Curve -> bool,
    /** `PointAtNormalizedLength(t)`: the point at fraction `t` of the arc length. */
    pointAtNormalizedLength: (Curve, real) -> Point,
    /** `PointAt(t)` for the parameter `t` that `ClosestPoint(pt)` reports. */
    closestPoint: (Curve, Point) -> Point,
    /** The tangents at the two interior parameters of `DivideByCount(3, false)`. */
    tangentSamples: Segment -> seq<Vector>,
    /** `IsParallelTo` at the default angle tolerance: 1, -1 or 0. */
    parallelTo: (Vector, Vector) -> int,
    /** The bounding-box diagonal of `PolygonBoundingBoxProperties`. */
    boundingDiagonal: Curve -> real,
    /** `AreaMassProperties.Compute(c).Area`. */
    area: Curve -> real,
    /** Whether the area computation succeeds; it fails on a zero-area curve. */
    areaDefined: Curve -> bool,
    /** `PlanarClosedCurveRelationship(a, b, plane, tol)`. */
    relationship: (Curve, Curve, Plane, real) -> Containment,
    /** `Intersection.CurveCurve(a, b, tol, tol)`. */
    curveCurve: (Curve, Curve, real) -> seq<IntersectionEvent>,
    /** `CreateBooleanUnion(curves, tol)`; a null result is the empty sequence. */
    union: (seq<Curve>, real) -> seq<Curve>,
    /** `CreateBooleanIntersection(a, b, tol)`. */
    intersection: (Curve, Curve, real) -> seq<Curve>,
    /** `CreateBooleanDifference(a, b, tol)`; a null result is the empty sequence. */
    difference: (Curve, Curve, real) -> seq<Curve>,
    /** `Split` of a curve by the extrusion of `edge` along `direction`. */
    splitByExtrusion: (Curve, Curve, Vector, real) -> seq<Curve>,
    /** `Simplify(CurveSimplifyOptions.All, distanceTol, angleTol)`. */
    simplify: (Curve, real, real) -> Curve,
    /** `JoinCurves(curves, tol)`. */
    join: (seq<Curve>, real) -> seq<Curve>,
    /** The polyline through the points of `DivideByCount(divCount, true)`. */
    tessellate: (Curve, int) -> Curve
  )

  /** The kernel's length is the exact Euclidean length. Only the statements
      about far triangle corners rely on this. */
  ghost predicate EuclideanNorm(k: Kernel) {
    forall v: Vector :: 0.0 <= k.norm(v) && k.norm(v) * k.norm(v) == NormSq(v)
  }
}
