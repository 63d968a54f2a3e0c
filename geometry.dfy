/**
 * Distance primitives of the facility service: the great-circle distance
 * between two coordinates and the distance from a point to a route segment,
 * found by projecting in the plane of (latitude, longitude) and measuring
 * with the great-circle distance.
 *
 * Numbers are exact reals. The haversine trigonometry is not modelled: the
 * central angle between two coordinates (the `c` the service derives with
 * sin, cos, sqrt and atan2) is a function supplied by the caller, and the
 * properties of it that the proofs use are collected in `IsCentralAngle`.
 */
module Geometry {

  /** A position in decimal degrees. */
  datatype Coord = Coord(lat: real, lng: real)

  /** Earth's mean radius, in kilometres. */
  const EarthRadiusKm: real := 6371.0

  /** The central angle, in radians, between two coordinates, as the haversine formula computes it. */
  type CentralAngle = (Coord, Coord) -> real

  /** What the haversine central angle is assumed to satisfy: never negative, zero between equal points, symmetric. */
  ghost predicate IsCentralAngle(centralAngle: CentralAngle)
  {
    && (forall p, q :: centralAngle(p, q) >= 0.0)
    && (forall p :: centralAngle(p, p) == 0.0)
    && (forall p, q :: centralAngle(p, q) == centralAngle(q, p))
  }

  /** Great-circle distance in kilometres: the central angle scaled by Earth's radius. */
  function CalculateDistance(centralAngle: CentralAngle, p: Coord, q: Coord): real
  {
    EarthRadiusKm * centralAngle(p, q)
  }

  /** Under the angle assumptions the distance is a non-negative, symmetric measure that vanishes on equal points. */
  lemma DistanceProperties(centralAngle: CentralAngle, p: Coord, q: Coord)
    requires IsCentralAngle(centralAngle)
    ensures CalculateDistance(centralAngle, p, q) >= 0.0
    ensures CalculateDistance(centralAngle, p, p) == 0.0
    ensures CalculateDistance(centralAngle, p, q) == CalculateDistance(centralAngle, q, p)
  {
  }

  /** The point at parameter `t` on the line through `l1` and `l2`, in the (lat, lng) plane. */
  function Lerp(l1: Coord, l2: Coord, t: real): Coord
  {
    Coord(l1.lat + t * (l2.lat - l1.lat), l1.lng + t * (l2.lng - l1.lng))
  }

  /** `q` lies on the closed segment from `l1` to `l2` in the (lat, lng) plane. */
  ghost predicate OnSegment(q: Coord, l1: Coord, l2: Coord)
  {
    exists t :: 0.0 <= t <= 1.0 && q == Lerp(l1, l2, t)
  }

  /** Squared Euclidean distance in the (lat, lng) plane, the measure the projection minimises. */
  function PlanarDistanceSq(p: Coord, q: Coord): real
  {
    (p.lat - q.lat) * (p.lat - q.lat) + (p.lng - q.lng) * (p.lng - q.lng)
  }

  /** `lenSq` of the service: the squared planar length of the segment. */
  function SegmentLengthSq(l1: Coord, l2: Coord): real
  {
    (l2.lat - l1.lat) * (l2.lat - l1.lat) + (l2.lng - l1.lng) * (l2.lng - l1.lng)
  }

  /** `dot` of the service: the offset of `p` from `l1` projected onto the segment's direction, unnormalised. */
  function Dot(p: Coord, l1: Coord, l2: Coord): real
  {
    (p.lat - l1.lat) * (l2.lat - l1.lat) + (p.lng - l1.lng) * (l2.lng - l1.lng)
  }

  /** `param = dot / lenSq` of the service: where the perpendicular from `p` meets the segment's line. */
  function ProjectionParameter(p: Coord, l1: Coord, l2: Coord): real
    requires SegmentLengthSq(l1, l2) != 0.0
  {
    Dot(p, l1, l2) / SegmentLengthSq(l1, l2)
  }

  /** The point `(xx, yy)` that the service measures to: the projection, replaced by the nearer end when it falls outside. */
  function NearestOnSegment(p: Coord, l1: Coord, l2: Coord): Coord
    requires SegmentLengthSq(l1, l2) != 0.0
  {
    var param := ProjectionParameter(p, l1, l2);
    if param < 0.0 then l1
    else if param > 1.0 then l2
    else Coord(l1.lat + param * (l2.lat - l1.lat), l1.lng + param * (l2.lng - l1.lng))
  }

  /** Distance from `p` to the segment from `l1` to `l2`, with the zero-length segment measured to `l1`. */
  function DistanceToLineSegment(centralAngle: CentralAngle, p: Coord, l1: Coord, l2: Coord): real
  {
    if SegmentLengthSq(l1, l2) == 0.0 then CalculateDistance(centralAngle, p, l1)
    else CalculateDistance(centralAngle, p, NearestOnSegment(p, l1, l2))
  }

  /** The segment has zero planar length exactly when its two ends coincide. */
  lemma SegmentLengthZeroIff(l1: Coord, l2: Coord)
    ensures SegmentLengthSq(l1, l2) == 0.0 <==> l1 == l2
  {
    var c, d := l2.lat - l1.lat, l2.lng - l1.lng;
    if l1 != l2 {
      calc {
        SegmentLengthSq(l1, l2);
      ==
        c * c + d * d;
      > { SumOfSquaresPositive(c, d); }
        0.0;
      }
    } else {
      calc {
        SegmentLengthSq(l1, l2);
      ==
        c * c + d * d;
      == { assert c == 0.0 && d == 0.0; }
        0.0 * 0.0 + 0.0 * 0.0;
      ==
        0.0;
      }
    }
  }

  /** A zero-length segment is measured as the plain distance to its (single) end point. */
  lemma DegenerateSegment(centralAngle: CentralAngle, p: Coord, s: Coord)
    ensures DistanceToLineSegment(centralAngle, p, s, s) == CalculateDistance(centralAngle, p, s)
  {
    SegmentLengthZeroIff(s, s);
  }

  /**
   * The three branches of the service pick the segment point at the projection
   * parameter clamped to [0, 1]: `l1` before the start, `l2` past the end, the
   * projection itself in between. So the measured-to point is always on the segment.
   */
  lemma NearestLiesOnSegment(p: Coord, l1: Coord, l2: Coord)
    requires SegmentLengthSq(l1, l2) != 0.0
    ensures NearestOnSegment(p, l1, l2) == Lerp(l1, l2, Clamp(ProjectionParameter(p, l1, l2)))
    ensures OnSegment(NearestOnSegment(p, l1, l2), l1, l2)
  {
    var t := Clamp(ProjectionParameter(p, l1, l2));
    assert Lerp(l1, l2, 0.0) == l1;
    assert Lerp(l1, l2, 1.0) == l2;
    assert NearestOnSegment(p, l1, l2) == Lerp(l1, l2, t);
  }

  /** The projection parameter limited to [0, 1]. */
  function Clamp(t: real): (r: real)
    ensures 0.0 <= r <= 1.0
    ensures 0.0 <= t <= 1.0 ==> r == t
  {
    if t < 0.0 then 0.0 else if t > 1.0 then 1.0 else t
  }

  /** The quadratic `len*x*x - 2*x*dot + k`, whose minimum over all `x` lies at `dot / len`. */
  function Quadratic(len: real, dot: real, k: real, x: real): real
  {
    len * x * x - 2.0 * x * dot + k
  }

  /** Squared planar distance from `p` to the point at parameter `t`, as a quadratic in `t`. */
  lemma PlanarDistanceAlong(p: Coord, l1: Coord, l2: Coord, t: real)
    ensures PlanarDistanceSq(p, Lerp(l1, l2, t)) ==
      Quadratic(SegmentLengthSq(l1, l2), Dot(p, l1, l2), PlanarDistanceSq(p, l1), t)
  {
    var a, b := p.lat - l1.lat, p.lng - l1.lng;
    var c, d := l2.lat - l1.lat, l2.lng - l1.lng;
    OffsetAlong(p, l1, l2, t);
    ExpandShifted(a, b, c, d, t);
    QuadraticOfSegment(p, l1, l2, t);
  }

  lemma OffsetAlong(p: Coord, l1: Coord, l2: Coord, t: real)
    ensures PlanarDistanceSq(p, Lerp(l1, l2, t))
         == ((p.lat - l1.lat) - t * (l2.lat - l1.lat)) * ((p.lat - l1.lat) - t * (l2.lat - l1.lat))
          + ((p.lng - l1.lng) - t * (l2.lng - l1.lng)) * ((p.lng - l1.lng) - t * (l2.lng - l1.lng))
  {
  }

  lemma QuadraticOfSegment(p: Coord, l1: Coord, l2: Coord, t: real)
    ensures Quadratic(SegmentLengthSq(l1, l2), Dot(p, l1, l2), PlanarDistanceSq(p, l1), t)
         == ((l2.lat - l1.lat) * (l2.lat - l1.lat) + (l2.lng - l1.lng) * (l2.lng - l1.lng)) * t * t
          - 2.0 * t * ((p.lat - l1.lat) * (l2.lat - l1.lat) + (p.lng - l1.lng) * (l2.lng - l1.lng))
          + ((p.lat - l1.lat) * (p.lat - l1.lat) + (p.lng - l1.lng) * (p.lng - l1.lng))
  {
  }

  lemma ExpandShifted(a: real, b: real, c: real, d: real, t: real)
    ensures (a - t * c) * (a - t * c) + (b - t * d) * (b - t * d)
         == (c * c + d * d) * t * t - 2.0 * t * (a * c + b * d) + (a * a + b * b)
  {
  }

  lemma SegmentLengthPositive(l1: Coord, l2: Coord)
    requires SegmentLengthSq(l1, l2) != 0.0
    ensures SegmentLengthSq(l1, l2) > 0.0
  {
    var c, d := l2.lat - l1.lat, l2.lng - l1.lng;
    calc {
      SegmentLengthSq(l1, l2);
    ==
      c * c + d * d;
    >= { SquareNonNegative(c); SquareNonNegative(d); }
      0.0;
    }
  }

  /** Clamping to [0, 1] never moves the parameter away from `param` more than any `t` in [0, 1] is. */
  lemma ClampIsNearest(param: real, t: real)
    requires 0.0 <= t <= 1.0
    ensures (t - Clamp(param)) * (t + Clamp(param) - 2.0 * param) >= 0.0
  {
    if param < 0.0 {
      MulNonNegative(t, t - 2.0 * param);
    } else if param > 1.0 {
      MulNonPositive(t - 1.0, t + 1.0 - 2.0 * param);
    } else {
      SquareNonNegative(t - param);
    }
  }

  /** The quadratic is no larger at `s` than at `t` when `s` is at least as near its vertex `param`. */
  lemma QuadraticGap(len: real, dot: real, k: real, param: real, s: real, t: real)
    requires len > 0.0 && dot == param * len
    requires (t - s) * (t + s - 2.0 * param) >= 0.0
    ensures Quadratic(len, dot, k, s) <= Quadratic(len, dot, k, t)
  {
    var x := (t - s) * (t + s - 2.0 * param);
    MulNonNegative(len, x);
    assert len * x == Quadratic(len, dot, k, t) - Quadratic(len, dot, k, s);
  }

  /** Over [0, 1], the quadratic is smallest at its vertex `dot / len` clamped to [0, 1]. */
  lemma ClampMinimises(len: real, dot: real, k: real, t: real)
    requires len > 0.0
    requires 0.0 <= t <= 1.0
    ensures Quadratic(len, dot, k, Clamp(dot / len)) <= Quadratic(len, dot, k, t)
  {
    var param := dot / len;
    assert dot == param * len;
    ClampIsNearest(param, t);
    QuadraticGap(len, dot, k, param, Clamp(param), t);
  }

  /** Along the segment, the squared planar distance is smallest at the clamped projection parameter. */
  lemma ClampedParameterMinimises(p: Coord, l1: Coord, l2: Coord, t: real)
    requires SegmentLengthSq(l1, l2) != 0.0
    requires 0.0 <= t <= 1.0
    ensures Quadratic(SegmentLengthSq(l1, l2), Dot(p, l1, l2), PlanarDistanceSq(p, l1), Clamp(ProjectionParameter(p, l1, l2)))
         <= Quadratic(SegmentLengthSq(l1, l2), Dot(p, l1, l2), PlanarDistanceSq(p, l1), t)
  {
    SegmentLengthPositive(l1, l2);
    ClampMinimises(SegmentLengthSq(l1, l2), Dot(p, l1, l2), PlanarDistanceSq(p, l1), t);
  }

  /**
   * The point the service measures to is, in the (lat, lng) plane, the point of
   * the segment nearest to `p`: no point of the segment is closer.
   */
  lemma NearestIsClosest(p: Coord, l1: Coord, l2: Coord, t: real)
    requires SegmentLengthSq(l1, l2) != 0.0
    requires 0.0 <= t <= 1.0
    ensures PlanarDistanceSq(p, NearestOnSegment(p, l1, l2)) <= PlanarDistanceSq(p, Lerp(l1, l2, t))
  {
    NearestLiesOnSegment(p, l1, l2);
    PlanarDistanceAlong(p, l1, l2, Clamp(ProjectionParameter(p, l1, l2)));
    PlanarDistanceAlong(p, l1, l2, t);
    ClampedParameterMinimises(p, l1, l2, t);
  }

  /** In the plane, the measured-to point is never farther from `p` than either end of the segment. */
  lemma NearestNoFartherThanEnds(p: Coord, l1: Coord, l2: Coord)
    requires SegmentLengthSq(l1, l2) != 0.0
    ensures PlanarDistanceSq(p, NearestOnSegment(p, l1, l2)) <= PlanarDistanceSq(p, l1)
    ensures PlanarDistanceSq(p, NearestOnSegment(p, l1, l2)) <= PlanarDistanceSq(p, l2)
  {
    NearestIsClosest(p, l1, l2, 0.0);
    assert Lerp(l1, l2, 0.0) == l1;
    NearestIsClosest(p, l1, l2, 1.0);
    assert Lerp(l1, l2, 1.0) == l2;
  }

  /** A point on the segment is at distance zero from it. */
  lemma PointOnSegmentMeasuresZero(centralAngle: CentralAngle, l1: Coord, l2: Coord, t: real)
    requires IsCentralAngle(centralAngle)
    requires 0.0 <= t <= 1.0
    ensures DistanceToLineSegment(centralAngle, Lerp(l1, l2, t), l1, l2) == 0.0
  {
    var p := Lerp(l1, l2, t);
    SegmentLengthZeroIff(l1, l2);
    if SegmentLengthSq(l1, l2) == 0.0 {
      assert p == l1;
    } else {
      var c, d := l2.lat - l1.lat, l2.lng - l1.lng;
      assert p.lat - l1.lat == t * c && p.lng - l1.lng == t * d;
      assert Dot(p, l1, l2) == t * SegmentLengthSq(l1, l2);
      assert ProjectionParameter(p, l1, l2) == t;
      assert NearestOnSegment(p, l1, l2) == p;
    }
  }

  /** Both ends of a segment are at distance zero from it. */
  lemma EndsMeasureZero(centralAngle: CentralAngle, l1: Coord, l2: Coord)
    requires IsCentralAngle(centralAngle)
    ensures DistanceToLineSegment(centralAngle, l1, l1, l2) == 0.0
    ensures DistanceToLineSegment(centralAngle, l2, l1, l2) == 0.0
  {
    PointOnSegmentMeasuresZero(centralAngle, l1, l2, 0.0);
    assert Lerp(l1, l2, 0.0) == l1;
    PointOnSegmentMeasuresZero(centralAngle, l1, l2, 1.0);
    assert Lerp(l1, l2, 1.0) == l2;
  }

  /** Under the angle assumptions the segment distance is never negative. */
  lemma DistanceToLineSegmentNonNegative(centralAngle: CentralAngle, p: Coord, l1: Coord, l2: Coord)
    requires IsCentralAngle(centralAngle)
    ensures DistanceToLineSegment(centralAngle, p, l1, l2) >= 0.0
  {
  }

  // Facts of real arithmetic that the solver does not find unaided.

  lemma MulNonNegative(x: real, y: real)
    requires x >= 0.0 && y >= 0.0
    ensures x * y >= 0.0
  {
  }

  lemma MulNonPositive(x: real, y: real)
    requires x <= 0.0 && y <= 0.0
    ensures x * y >= 0.0
  {
  }

  lemma SquareNonNegative(x: real)
    ensures x * x >= 0.0
  {
    if x >= 0.0 {
      MulNonNegative(x, x);
    } else {
      MulNonPositive(x, x);
    }
  }

  lemma SumOfSquaresPositive(x: real, y: real)
    requires x != 0.0 || y != 0.0
    ensures x * x + y * y > 0.0
  {
    SquareNonNegative(x);
    SquareNonNegative(y);
    if x > 0.0 {
      MulPositive(x, x);
    } else if x < 0.0 {
      MulPositive(-x, -x);
      assert (-x) * (-x) == x * x;
    } else if y > 0.0 {
      MulPositive(y, y);
    } else {
      MulPositive(-y, -y);
      assert (-y) * (-y) == y * y;
    }
  }

  lemma MulPositive(x: real, y: real)
    requires x > 0.0 && y > 0.0
    ensures x * y > 0.0
  {
  }
}
