/** Points, vectors, planes and polycurves of the working space, over exact reals. */
module Primitives {

  datatype Point = Point(x: real, y: real, z: real)

  datatype Vector = Vector(x: real, y: real, z: real)

  const Origin: Point := Point(0.0, 0.0, 0.0)

  const ZeroVector: Vector := Vector(0.0, 0.0, 0.0)

  /** The vector from `b` to `a`, as `new Vector3d(a) - new Vector3d(b)`. */
  function Sub(a: Point, b: Point): Vector {
    Vector(a.x - b.x, a.y - b.y, a.z - b.z)
  }

  function Translate(p: Point, v: Vector): Point {
    Point(p.x + v.x, p.y + v.y, p.z + v.z)
  }

  function Scale(v: Vector, c: real): Vector {
    Vector(v.x * c, v.y * c, v.z * c)
  }

  function Dot(u: Vector, v: Vector): real {
    u.x * v.x + u.y * v.y + u.z * v.z
  }

  function Cross(u: Vector, v: Vector): Vector {
    Vector(u.y * v.z - u.z * v.y, u.z * v.x - u.x * v.z, u.x * v.y - u.y * v.x)
  }

  /** The squared Euclidean length, which needs no square root. */
  function NormSq(v: Vector): real {
    Dot(v, v)
  }

  function Midpoint(a: Point, b: Point): Point {
    Point((a.x + b.x) / 2.0, (a.y + b.y) / 2.0, (a.z + b.z) / 2.0)
  }

  /** A plane as RhinoCommon builds it from an origin and two in-plane directions.
      The default plane is `DefaultPlane`. */
  datatype Plane = Plane(origin: Point, xDirection: Vector, yDirection: Vector)

  /** `new Plane()`: every component zero, so its normal is the zero vector. */
  const DefaultPlane: Plane := Plane(Origin, ZeroVector, ZeroVector)

  /** The runtime class of a segment: a straight `LineCurve`, or any other curve
      class, whose shape only the kernel can interpret. */
  datatype SegmentKind = LineKind | OtherKind(shape: nat)

  datatype Segment = Segment(start: Point, end: Point, kind: SegmentKind)

  /** A curve as the chain of segments `DuplicateSegments` returns. */
  datatype PolyCurve = PolyCurve(segments: seq<Segment>)

  /** Every curve the engine handles has at least one segment. */
  type Curve = c: PolyCurve | |c.segments| > 0
    witness PolyCurve([Segment(Point(0.0, 0.0, 0.0), Point(0.0, 0.0, 0.0), LineKind)])

  /** `new LineCurve(a, b)`. */
  function LineCurve(a: Point, b: Point): Curve {
    PolyCurve([Segment(a, b, LineKind)])
  }

  /** A single segment seen as a curve of its own. */
  function SegmentCurve(s: Segment): Curve {
    PolyCurve([s])
  }

  /** `PointAtStart`. */
  function StartPoint(c: Curve): Point {
    c.segments[0].start
  }

  /** `PointAtEnd`. */
  function EndPoint(c: Curve): Point {
    c.segments[|c.segments| - 1].end
  }
}
