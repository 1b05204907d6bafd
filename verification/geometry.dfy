/** Point, plane and coplanarity tests of the `Geometry` helper class. */
module Geometry {
  import opened Primitives
  import opened GeometryKernel

  function Abs(x: real): real {
    if x < 0.0 then -x else x
  }

  /** `a.DistanceTo(b)`. */
  function Distance(k: Kernel, a: Point, b: Point): real {
    k.norm(Sub(a, b))
  }

  /** `Vector3d.Unitize`: scale to unit length; a zero-length vector is left as it is. */
  function Unitize(k: Kernel, v: Vector): Vector {
    if k.norm(v) > 0.0 then Scale(v, 1.0 / k.norm(v)) else v
  }

  /** The plane's normal, the unit cross product of its two directions. */
  function ZAxis(k: Kernel, pl: Plane): Vector {
    Unitize(k, Cross(pl.xDirection, pl.yDirection))
  }

  /** `Plane.DistanceTo`: the signed distance of `p` along the plane's normal. */
  function DistanceTo(k: Kernel, pl: Plane, p: Point): real {
    Dot(Sub(p, pl.origin), ZAxis(k, pl))
  }

  /** `_isPtOnPlane`: the point is on the plane unless its distance exceeds the tolerance. */
  predicate IsPtOnPlane(k: Kernel, tol: real, p: Point, pl: Plane) {
    !(Abs(DistanceTo(k, pl, p)) > tol)
  }

  /** `PlaneFromRegion`: a closed planar curve gives the plane through its points at
      0, 0.33 and 0.66 of its length; any other curve gives the unset plane. */
  function PlaneFromRegion(k: Kernel, c: Curve): Plane {
    if k.isClosed(c) && k.isPlanar(c) then
      var p1 := k.pointAtNormalizedLength(c, 0.0);
      var p2 := k.pointAtNormalizedLength(c, 0.33);
      var p3 := k.pointAtNormalizedLength(c, 0.66);
      Plane(p1, Sub(p2, p1), Sub(p3, p1))
    else
      DefaultPlane
  }

  /** A curve that is not both closed and planar gets the default plane, whose normal
      is the zero vector, so every point lies on it. So when the first region is planar
      but not closed, every start point passes the plane test. */
  lemma DefaultPlaneHoldsEveryPoint(k: Kernel, tol: real, c: Curve, p: Point)
    requires tol >= 0.0
    ensures !(k.isClosed(c) && k.isPlanar(c)) ==> PlaneFromRegion(k, c) == DefaultPlane
    ensures !(k.isClosed(c) && k.isPlanar(c)) ==> IsPtOnPlane(k, tol, p, PlaneFromRegion(k, c))
  {
    assert ZAxis(k, DefaultPlane) == ZeroVector;
  }

  /** What the array overload of `_areCoplanar` decides: every region is planar, and
      every region after the first starts on the plane of the first. */
  ghost predicate Coplanar(k: Kernel, tol: real, regions: seq<Curve>)
    requires |regions| > 0
  {
    && (forall i :: 0 <= i < |regions| ==> k.isPlanar(regions[i]))
    && (forall i :: 1 <= i < |regions| ==>
          IsPtOnPlane(k, tol, StartPoint(regions[i]), PlaneFromRegion(k, regions[0])))
  }

  /** `_areCoplanar(Curve[])`: the planarity pass, then the start-point pass. An empty
      array would be indexed at 0, so callers pass at least one region. */
  method AreCoplanar(k: Kernel, tol: real, regions: seq<Curve>) returns (r: bool)
    requires |regions| > 0
    ensures r <==> Coplanar(k, tol, regions)
    ensures (exists i :: 0 <= i < |regions| && !k.isPlanar(regions[i])) ==> !r
  {
    var i := 0;
    while i < |regions|
      invariant 0 <= i <= |regions|
      invariant forall j :: 0 <= j < i ==> k.isPlanar(regions[j])
    {
      if !k.isPlanar(regions[i]) {
        return false;
      }
      i := i + 1;
    }
    var plane := PlaneFromRegion(k, regions[0]);
    i := 1;
    while i < |regions|
      invariant 1 <= i <= |regions|
      invariant forall j :: 1 <= j < i ==> IsPtOnPlane(k, tol, StartPoint(regions[j]), plane)
    {
      if !IsPtOnPlane(k, tol, StartPoint(regions[i]), plane) {
        return false;
      }
      i := i + 1;
    }
    return true;
  }

  /** `_areCoplanar(Curve, Curve)`. */
  predicate AreCoplanarPair(k: Kernel, tol: real, a: Curve, b: Curve) {
    && k.isPlanar(a)
    && k.isPlanar(b)
    && IsPtOnPlane(k, tol, StartPoint(b), PlaneFromRegion(k, a))
  }

  /** The two overloads agree: the pair test is the array test on a two-element array. */
  lemma PairIsTwoRegionCase(k: Kernel, tol: real, a: Curve, b: Curve)
    ensures AreCoplanarPair(k, tol, a, b) <==> Coplanar(k, tol, [a, b])
  {
    var rs := [a, b];
    assert rs[0] == a && rs[1] == b;
    if AreCoplanarPair(k, tol, a, b) {
      assert forall i :: 0 <= i < |rs| ==> k.isPlanar(rs[i]);
    }
  }

  /** `IsPtOnCurve`: the point is on the curve unless it is farther than the
      tolerance from the curve's closest point. */
  predicate IsPtOnCurve(k: Kernel, tol: real, pt: Point, c: Curve) {
    !(Distance(k, pt, k.closestPoint(c, pt)) > tol)
  }

  /** Under an exact length, a vector of positive length unitizes to a unit vector
      pointing the same way. */
  lemma UnitizeIsUnit(k: Kernel, v: Vector)
    requires EuclideanNorm(k)
    requires k.norm(v) > 0.0
    ensures Unitize(k, v) == Scale(v, 1.0 / k.norm(v))
    ensures NormSq(Unitize(k, v)) == 1.0
  {
    var n := k.norm(v);
    assert n * n == NormSq(v);
    ScaledNormSq(v, 1.0 / n);
    InverseSquare(n, NormSq(v));
  }

  lemma ScaledNormSq(v: Vector, c: real)
    ensures NormSq(Scale(v, c)) == c * c * NormSq(v)
  {
  }

  lemma InverseSquare(n: real, m: real)
    requires n > 0.0
    requires m == n * n
    ensures (1.0 / n) * (1.0 / n) * m == 1.0
  {
  }
}
