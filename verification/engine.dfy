/** `_isoVist2D_` and its two public entry points `IsoVist2D`: the region visible from
    an observer inside a master region with voids. */
module Isovist {
  import opened Wrappers
  import opened Primitives
  import opened GeometryKernel
  import opened Geometry
  import opened Visibility
  import opened Retry

  /** The ways the computation ends without a result. */
  datatype EngineError =
    /** The recursive difference went deeper than the fuel allows. */
    | OutOfFuel
    /** A void segment is not a `LineCurve`, so the `foreach (LineCurve ...)` cast throws. */
    | NonLineVoidSegment
    /** The union of the visible parts is empty, so `regions[0]` throws. */
    | EmptyVisibleUnion

  /** The engine's answer: the visible regions, or why there are none. */
  type EngineResult = Result<seq<Curve>, EngineError>

  /** `regions`: the union of the reveal triangles together with the shadowed area. */
  function VisibleUnion(k: Kernel, tol: real, voids: seq<Curve>, pt: Point, area2: seq<Curve>): seq<Curve> {
    k.union(RevealedArea(k, tol, voids, pt) + area2, tol)
  }

  /** `_isoVist2D_` (and the public `IsoVist2D(masterArea, voidPolygons, pt)`, which only
      forwards to it). */
  method IsoVist2D(k: Kernel, tol: real, master: Curve, voids: seq<Curve>, pt: Point, fuel: nat)
    returns (r: EngineResult)
    ensures SelfVisibleArea(k, tol, master, pt, fuel).None? ==> r == Failure(OutOfFuel)
    ensures SelfVisibleArea(k, tol, master, pt, fuel).Some? && voids == [] ==>
              r == Success(SelfVisibleArea(k, tol, master, pt, fuel).value)
    ensures SelfVisibleArea(k, tol, master, pt, fuel).Some? && voids != [] && !AllLineSegments(voids) ==>
              r == Failure(NonLineVoidSegment)
    ensures SelfVisibleArea(k, tol, master, pt, fuel).Some? && voids != [] && AllLineSegments(voids) ==>
              match ShadowedArea(k, tol, master, voids, pt, fuel)
              case None => r == Failure(OutOfFuel)
              case Some(area2) =>
                var regions := VisibleUnion(k, tol, voids, pt, area2);
                var area1 := SelfVisibleArea(k, tol, master, pt, fuel).value;
                (regions == [] ==> r == Failure(EmptyVisibleUnion))
                && (regions != [] ==>
                      && r.Success?
                      && exists n :: RetriedAs(k, tol, area1[0], regions[0], k.intersection(area1[0], regions[0], tol), n, r.value))
  {
    var step1 := SelfVisibleArea(k, tol, master, pt, fuel);
    if step1.None? {
      return Failure(OutOfFuel);
    }
    var area1 := step1.value;
    if voids == [] {
      return Success(area1);
    }
    if !AllLineSegments(voids) {
      return Failure(NonLineVoidSegment);
    }
    var step2 := ShadowedArea(k, tol, master, voids, pt, fuel);
    if step2.None? {
      return Failure(OutOfFuel);
    }
    var regions := VisibleUnion(k, tol, voids, pt, step2.value);
    if regions == [] {
      return Failure(EmptyVisibleUnion);
    }
    var first := k.intersection(area1[0], regions[0], tol);
    var final, attempts := RetryIntersection(k, tol, area1[0], regions[0], first);
    return Success(final);
  }

  /** `IsoVist2D(masterArea, pt)`: the engine with no voids, which never fails except
      for fuel and returns the self-visible area; when no master edge hides anything,
      that is the master itself. */
  method IsoVist2DWithoutVoids(k: Kernel, tol: real, master: Curve, pt: Point, fuel: nat)
    returns (r: EngineResult)
    ensures r.Failure? <==> SelfVisibleArea(k, tol, master, pt, fuel).None?
    ensures r.Failure? ==> r.error == OutOfFuel
    ensures r.Success? ==> r.value == SelfVisibleArea(k, tol, master, pt, fuel).value && |r.value| >= 1
    ensures (forall i :: 0 <= i < |master.segments| ==>
               EdgeWedge(k, tol, master, pt, ReachLength(k, master), WorkingNormal(k, master), master.segments[i]) == [])
            ==> r == Success([master])
  {
    r := IsoVist2D(k, tol, master, [], pt, fuel);
  }
}
