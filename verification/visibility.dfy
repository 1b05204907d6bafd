/** The per-edge rules of the isovist engine `_isoVist2D_`: the far triangles, the
    genuine-intersection filter, the unseen wedges behind the master's edges, the
    shadow cones behind the voids and the reveal triangles in front of them. */
module Visibility {
  import opened Wrappers
  import opened Primitives
  import opened GeometryKernel
  import opened Geometry
  import opened Difference

  /** The point at `length` from `pt` in the unitized direction toward `toward`. */
  function FarCorner(k: Kernel, pt: Point, toward: Point, length: real): Point {
    Translate(pt, Scale(Unitize(k, Sub(toward, pt)), length))
  }

  /** `_triangularRegionPts`: the far corners above the segment's start and end. */
  function TriangularRegionPts(k: Kernel, pt: Point, segment: Curve, length: real): (Point, Point) {
    (FarCorner(k, pt, StartPoint(segment), length), FarCorner(k, pt, EndPoint(segment), length))
  }

  lemma TranslateSub(p: Point, w: Vector)
    ensures Sub(Translate(p, w), p) == w
  {
  }

  /** Under an exact length, a far corner lies at squared distance `length²` from the
      observer, on the ray from the observer through the point it was aimed at. */
  lemma FarCornerAtLength(k: Kernel, pt: Point, toward: Point, length: real)
    requires EuclideanNorm(k)
    requires Distance(k, toward, pt) > 0.0
    ensures NormSq(Sub(FarCorner(k, pt, toward, length), pt)) == length * length
    ensures Sub(FarCorner(k, pt, toward, length), pt) == Scale(Sub(toward, pt), length / Distance(k, toward, pt))
  {
    var v := Sub(toward, pt);
    var u := Unitize(k, v);
    UnitizeIsUnit(k, v);
    TranslateSub(pt, Scale(u, length));
    ScaledNormSq(u, length);
  }

  /** Both far corners of `_triangularRegionPts` are at `length` from the observer along
      the directions toward the segment's end points. */
  lemma TriangularRegionPtsAtLength(k: Kernel, pt: Point, segment: Curve, length: real)
    requires EuclideanNorm(k)
    requires Distance(k, StartPoint(segment), pt) > 0.0
    requires Distance(k, EndPoint(segment), pt) > 0.0
    ensures NormSq(Sub(TriangularRegionPts(k, pt, segment, length).0, pt)) == length * length
    ensures NormSq(Sub(TriangularRegionPts(k, pt, segment, length).1, pt)) == length * length
    ensures Sub(TriangularRegionPts(k, pt, segment, length).0, pt)
         == Scale(Sub(StartPoint(segment), pt), length / Distance(k, StartPoint(segment), pt))
    ensures Sub(TriangularRegionPts(k, pt, segment, length).1, pt)
         == Scale(Sub(EndPoint(segment), pt), length / Distance(k, EndPoint(segment), pt))
  {
    FarCornerAtLength(k, pt, StartPoint(segment), length);
    FarCornerAtLength(k, pt, EndPoint(segment), length);
  }

  /** An end point that coincides with the observer gives no direction: `Unitize` leaves
      the zero vector alone, so the far corner is the observer itself, for any kernel. */
  lemma FarCornerOfObserverIsObserver(k: Kernel, pt: Point, length: real)
    ensures FarCorner(k, pt, pt, length) == pt
  {
    assert Sub(pt, pt) == ZeroVector;
  }

  /** `_triangularRegion`: the closed polyline observer, `s`, `e`, observer. */
  function TriangularRegion(pt: Point, s: Point, e: Point): Curve {
    PolyCurve([Segment(pt, s, LineKind), Segment(s, e, LineKind), Segment(e, pt, LineKind)])
  }

  /** An intersection event is genuine when its two reported points are closer than the
      tolerance; overlap events with far-apart end points are not. */
  predicate IsGenuine(k: Kernel, tol: real, e: IntersectionEvent) {
    Distance(k, e.pointA, e.pointB) < tol
  }

  ghost function GenuineIndices(k: Kernel, tol: real, events: seq<IntersectionEvent>, from: nat): set<int> {
    set i | from <= i < |events| && IsGenuine(k, tol, events[i])
  }

  /** The `intPts` list: the first point of every genuine event from `from` on, in order. */
  function GenuinePoints(k: Kernel, tol: real, events: seq<IntersectionEvent>, from: nat): (r: seq<Point>)
    requires from <= |events|
    decreases |events| - from
    ensures |r| == |GenuineIndices(k, tol, events, from)|
    ensures forall p :: p in r <==> exists i :: from <= i < |events| && IsGenuine(k, tol, events[i]) && events[i].pointA == p
  {
    if from == |events| then
      assert GenuineIndices(k, tol, events, from) == {};
      []
    else
      var rest := GenuinePoints(k, tol, events, from + 1);
      if IsGenuine(k, tol, events[from]) then
        assert GenuineIndices(k, tol, events, from) == {from as int} + GenuineIndices(k, tol, events, from + 1);
        [events[from].pointA] + rest
      else
        assert GenuineIndices(k, tol, events, from) == GenuineIndices(k, tol, events, from + 1);
        rest
  }

  /** `intPts.Count` for the probe line against a curve. */
  function ProbeHits(k: Kernel, tol: real, probe: Curve, target: Curve): nat {
    |GenuinePoints(k, tol, k.curveCurve(probe, target, tol), 0)|
  }

  /** The probe count is exactly the number of genuine intersection events. */
  lemma ProbeHitsCountsGenuineEvents(k: Kernel, tol: real, probe: Curve, target: Curve)
    ensures ProbeHits(k, tol, probe, target)
         == |set i | 0 <= i < |k.curveCurve(probe, target, tol)| && IsGenuine(k, tol, k.curveCurve(probe, target, tol)[i])|
  {
    assert GenuineIndices(k, tol, k.curveCurve(probe, target, tol), 0)
        == set i | 0 <= i < |k.curveCurve(probe, target, tol)| && IsGenuine(k, tol, k.curveCurve(probe, target, tol)[i]);
  }

  /** A split piece closed by the chord from its start to its end point. */
  function ClosePiece(k: Kernel, tol: real, c: Curve): seq<Curve> {
    k.join([c, LineCurve(StartPoint(c), EndPoint(c))], tol)
  }

  /** Piece `i` is the first split piece that does not touch the observer. */
  ghost predicate FirstFarPiece(k: Kernel, tol: real, pt: Point, pieces: seq<Curve>, i: int) {
    && 0 <= i < |pieces|
    && !IsPtOnCurve(k, tol, pt, pieces[i])
    && forall j :: 0 <= j < i ==> IsPtOnCurve(k, tol, pt, pieces[j])
  }

  /** The inner loop over the split pieces: close the first piece away from the observer
      and stop; nothing when every piece touches the observer. */
  function FarPiece(k: Kernel, tol: real, pt: Point, pieces: seq<Curve>, from: nat): (r: seq<Curve>)
    requires from <= |pieces|
    requires forall j :: 0 <= j < from ==> IsPtOnCurve(k, tol, pt, pieces[j])
    decreases |pieces| - from
    ensures forall i :: FirstFarPiece(k, tol, pt, pieces, i) ==> r == ClosePiece(k, tol, pieces[i])
    ensures (forall j :: 0 <= j < |pieces| ==> IsPtOnCurve(k, tol, pt, pieces[j])) ==> r == []
  {
    if from == |pieces| then []
    else if !IsPtOnCurve(k, tol, pt, pieces[from]) then
      assert FirstFarPiece(k, tol, pt, pieces, from);
      ClosePiece(k, tol, pieces[from])
    else
      FarPiece(k, tol, pt, pieces, from + 1)
  }

  /** The length of the far triangles: 1.1 times the master's bounding-box diagonal. */
  function ReachLength(k: Kernel, master: Curve): real {
    11.0 / 10.0 * k.boundingDiagonal(master)
  }

  /** The probe from the observer to the midpoint of a master edge. */
  function EdgeProbe(pt: Point, edge: Segment): Curve {
    LineCurve(pt, Midpoint(edge.start, edge.end))
  }

  /** The pieces of the far triangle over `edge`, split by the extrusion of the edge
      along the plane normal. */
  function WedgePieces(k: Kernel, tol: real, pt: Point, length: real, normal: Vector, edge: Segment): seq<Curve> {
    var e := SegmentCurve(edge);
    var corners := TriangularRegionPts(k, pt, e, length);
    k.splitByExtrusion(TriangularRegion(pt, corners.0, corners.1), e, normal, tol)
  }

  /** What one master edge adds to `unseenAreas`: exactly when the observer is off that
      edge and the probe to its midpoint meets the master more than once, the far piece
      of the split far triangle; otherwise nothing. */
  function EdgeWedge(k: Kernel, tol: real, master: Curve, pt: Point, length: real, normal: Vector, edge: Segment): (r: seq<Curve>)
    ensures r != [] ==> !IsPtOnCurve(k, tol, pt, SegmentCurve(edge)) && ProbeHits(k, tol, EdgeProbe(pt, edge), master) > 1
    ensures !IsPtOnCurve(k, tol, pt, SegmentCurve(edge)) && ProbeHits(k, tol, EdgeProbe(pt, edge), master) > 1 ==>
              r == FarPiece(k, tol, pt, WedgePieces(k, tol, pt, length, normal, edge), 0)
  {
    if IsPtOnCurve(k, tol, pt, SegmentCurve(edge)) then []
    else if ProbeHits(k, tol, EdgeProbe(pt, edge), master) > 1 then
      FarPiece(k, tol, pt, WedgePieces(k, tol, pt, length, normal, edge), 0)
    else []
  }

  /** `c` is part of the wedge of some edge from `from` on. */
  ghost predicate FromSomeEdge(k: Kernel, tol: real, master: Curve, pt: Point, length: real, normal: Vector, edges: seq<Segment>, from: nat, c: Curve) {
    exists i :: from <= i < |edges| && c in EdgeWedge(k, tol, master, pt, length, normal, edges[i])
  }

  /** `unseenAreas`: the wedges of the master's edges from `from` on, in edge order. */
  function UnseenWedges(k: Kernel, tol: real, master: Curve, pt: Point, length: real, normal: Vector, edges: seq<Segment>, from: nat): (r: seq<Curve>)
    requires from <= |edges|
    decreases |edges| - from
    ensures r == [] <==> forall i :: from <= i < |edges| ==> EdgeWedge(k, tol, master, pt, length, normal, edges[i]) == []
    ensures forall c :: c in r ==> FromSomeEdge(k, tol, master, pt, length, normal, edges, from, c)
    ensures forall i, c :: from <= i < |edges| && c in EdgeWedge(k, tol, master, pt, length, normal, edges[i]) ==> c in r
  {
    if from == |edges| then []
    else
      var w := EdgeWedge(k, tol, master, pt, length, normal, edges[from]);
      var rest := UnseenWedges(k, tol, master, pt, length, normal, edges, from + 1);
      assert forall c :: c in w + rest <==> c in w || c in rest;
      w + rest
  }

  /** The `IsValid` filter on the unseen wedges. */
  function ValidCurves(k: Kernel, cs: seq<Curve>): (r: seq<Curve>)
    ensures forall c :: c in r <==> c in cs && k.isValid(c)
    ensures |r| <= |cs|
  {
    if |cs| == 0 then []
    else if k.isValid(cs[0]) then [cs[0]] + ValidCurves(k, cs[1..])
    else ValidCurves(k, cs[1..])
  }

  /** The union of the curves, or the curves themselves when the union comes back empty. */
  function UnionOrRaw(k: Kernel, tol: real, cs: seq<Curve>): (r: seq<Curve>)
    ensures r == [] <==> cs == [] && k.union(cs, tol) == []
    ensures |k.union(cs, tol)| > 0 ==> r == k.union(cs, tol)
    ensures |k.union(cs, tol)| == 0 ==> r == cs
  {
    if |k.union(cs, tol)| > 0 then k.union(cs, tol) else cs
  }

  /** The plane normal the master's edges are extruded along. */
  function WorkingNormal(k: Kernel, master: Curve): Vector {
    ZAxis(k, PlaneFromRegion(k, master))
  }

  /** Step 1, `area1`: the master minus the unseen wedges. `None` only when the
      difference runs out of fuel. */
  function SelfVisibleArea(k: Kernel, tol: real, master: Curve, pt: Point, fuel: nat): (r: Option<seq<Curve>>)
    ensures (forall i :: 0 <= i < |master.segments| ==>
               EdgeWedge(k, tol, master, pt, ReachLength(k, master), WorkingNormal(k, master), master.segments[i]) == [])
            ==> r == Some([master])
    ensures r.Some? ==> |r.value| >= 1
  {
    var unseen := UnseenWedges(k, tol, master, pt, ReachLength(k, master), WorkingNormal(k, master), master.segments, 0);
    if |unseen| > 0 then
      DifferenceRegionRegion(k, tol, [master], UnionOrRaw(k, tol, ValidCurves(k, unseen)), PlaneFromRegion(k, master), fuel)
    else
      Some([master])
  }

  /** When some edge adds a wedge, the self-visible area is the master minus the union
      of the valid wedges, or minus the valid wedges themselves when that union is empty. */
  lemma SelfVisibleAreaSubtractsWedges(k: Kernel, tol: real, master: Curve, pt: Point, fuel: nat)
    ensures var unseen := UnseenWedges(k, tol, master, pt, ReachLength(k, master), WorkingNormal(k, master), master.segments, 0);
            var valid := ValidCurves(k, unseen);
            && (unseen != [] && k.union(valid, tol) != [] ==>
                  SelfVisibleArea(k, tol, master, pt, fuel)
                  == DifferenceRegionRegion(k, tol, [master], k.union(valid, tol), PlaneFromRegion(k, master), fuel))
            && (unseen != [] && k.union(valid, tol) == [] ==>
                  SelfVisibleArea(k, tol, master, pt, fuel)
                  == DifferenceRegionRegion(k, tol, [master], valid, PlaneFromRegion(k, master), fuel))
  {
  }

  /** The unbounded triangle behind one void segment. */
  function ShadowCone(k: Kernel, pt: Point, length: real, seg: Segment): Curve {
    var corners := TriangularRegionPts(k, pt, SegmentCurve(seg), length);
    TriangularRegion(pt, corners.0, corners.1)
  }

  /** `polygonTriangles`: the shadow cones of the segments from `from` on whose area
      computation succeeds; the zero-area ones are dropped. */
  function VoidCones(k: Kernel, pt: Point, length: real, segs: seq<Segment>, from: nat): (r: seq<Curve>)
    requires from <= |segs|
    decreases |segs| - from
    ensures forall c :: c in r ==> k.areaDefined(c)
    ensures forall c :: c in r <==> exists i :: from <= i < |segs| && c == ShadowCone(k, pt, length, segs[i]) && k.areaDefined(c)
  {
    if from == |segs| then []
    else
      var c := ShadowCone(k, pt, length, segs[from]);
      var rest := VoidCones(k, pt, length, segs, from + 1);
      if k.areaDefined(c) then [c] + rest else rest
  }

  /** `triangles`: for each void from `from` on, the union of its shadow cones. */
  function Shadows(k: Kernel, tol: real, pt: Point, length: real, voids: seq<Curve>, from: nat): (r: seq<Curve>)
    requires from <= |voids|
    decreases |voids| - from
    ensures forall c :: c in r <==> exists i :: from <= i < |voids| && c in k.union(VoidCones(k, pt, length, voids[i].segments, 0), tol)
  {
    if from == |voids| then []
    else
      var u := k.union(VoidCones(k, pt, length, voids[from].segments, 0), tol);
      var rest := Shadows(k, tol, pt, length, voids, from + 1);
      assert forall c :: c in u + rest <==> c in u || c in rest;
      u + rest
  }

  /** The finite triangle between the observer and a void segment. */
  function RevealTriangle(pt: Point, seg: Segment): Curve {
    TriangularRegion(pt, seg.start, seg.end)
  }

  /** The probe from the observer to the point halfway along a void segment. */
  function RevealProbe(k: Kernel, pt: Point, seg: Segment): Curve {
    LineCurve(pt, k.pointAtNormalizedLength(SegmentCurve(seg), 0.5))
  }

  /** A void segment is revealed when its probe meets its own void exactly once and its
      triangle has a computable area. */
  predicate Revealed(k: Kernel, tol: real, pt: Point, v: Curve, seg: Segment) {
    ProbeHits(k, tol, RevealProbe(k, pt, seg), v) == 1 && k.areaDefined(RevealTriangle(pt, seg))
  }

  /** The reveal triangles of one void's segments from `from` on. */
  function VoidReveals(k: Kernel, tol: real, pt: Point, v: Curve, from: nat): (r: seq<Curve>)
    requires from <= |v.segments|
    decreases |v.segments| - from
    ensures forall c :: c in r <==> exists j :: from <= j < |v.segments| && Revealed(k, tol, pt, v, v.segments[j]) && c == RevealTriangle(pt, v.segments[j])
  {
    if from == |v.segments| then []
    else
      var seg := v.segments[from];
      var rest := VoidReveals(k, tol, pt, v, from + 1);
      if Revealed(k, tol, pt, v, seg) then [RevealTriangle(pt, seg)] + rest else rest
  }

  /** `additionalTriangles`: the reveal triangles of the voids from `from` on. */
  function Reveals(k: Kernel, tol: real, pt: Point, voids: seq<Curve>, from: nat): (r: seq<Curve>)
    requires from <= |voids|
    decreases |voids| - from
    ensures forall c :: c in r <==> exists i :: from <= i < |voids| && c in VoidReveals(k, tol, pt, voids[i], 0)
  {
    if from == |voids| then []
    else
      var a := VoidReveals(k, tol, pt, voids[from], 0);
      var rest := Reveals(k, tol, pt, voids, from + 1);
      assert forall c :: c in a + rest <==> c in a || c in rest;
      a + rest
  }

  /** Every reveal triangle comes from a void segment whose probe meets that void exactly
      once, and every such segment with a non-degenerate triangle gives one. */
  lemma RevealsAreExactlyTheRevealedSegments(k: Kernel, tol: real, pt: Point, voids: seq<Curve>, c: Curve)
    ensures c in Reveals(k, tol, pt, voids, 0) <==>
            exists i, j :: 0 <= i < |voids| && 0 <= j < |voids[i].segments|
                        && Revealed(k, tol, pt, voids[i], voids[i].segments[j])
                        && c == RevealTriangle(pt, voids[i].segments[j])
  {
  }

  /** Every void segment is a straight `LineCurve`, as the casts in step 2 demand. */
  predicate AllLineSegments(voids: seq<Curve>) {
    forall i, j :: 0 <= i < |voids| && 0 <= j < |voids[i].segments| ==> voids[i].segments[j].kind == LineKind
  }

  /** Step 2, `area2`: the master minus the union of the shadow cones, or minus the raw
      cones when their union is empty. */
  function ShadowedArea(k: Kernel, tol: real, master: Curve, voids: seq<Curve>, pt: Point, fuel: nat): (r: Option<seq<Curve>>)
    ensures r.Some? ==> |r.value| >= 1
  {
    var shadows := Shadows(k, tol, pt, ReachLength(k, master), voids, 0);
    DifferenceRegionRegion(k, tol, [master], UnionOrRaw(k, tol, shadows), PlaneFromRegion(k, master), fuel)
  }

  /** The shadowed area is the master minus the union of the per-void cone unions, or
      minus those cone unions themselves when that union is empty. */
  lemma ShadowedAreaSubtractsCones(k: Kernel, tol: real, master: Curve, voids: seq<Curve>, pt: Point, fuel: nat)
    ensures var shadows := Shadows(k, tol, pt, ReachLength(k, master), voids, 0);
            && (k.union(shadows, tol) != [] ==>
                  ShadowedArea(k, tol, master, voids, pt, fuel)
                  == DifferenceRegionRegion(k, tol, [master], k.union(shadows, tol), PlaneFromRegion(k, master), fuel))
            && (k.union(shadows, tol) == [] ==>
                  ShadowedArea(k, tol, master, voids, pt, fuel)
                  == DifferenceRegionRegion(k, tol, [master], shadows, PlaneFromRegion(k, master), fuel))
  {
  }

  /** `area3`: the union of the reveal triangles. */
  function RevealedArea(k: Kernel, tol: real, voids: seq<Curve>, pt: Point): seq<Curve> {
    k.union(Reveals(k, tol, pt, voids, 0), tol)
  }
}
