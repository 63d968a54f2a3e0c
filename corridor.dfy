/**
 * The route corridor: a facility is along the route when its distance to the
 * nearest segment between consecutive route points is within the radius.
 */
module Corridor {
  import opened Wrappers
  import opened Sequences
  import opened Geometry
  import opened RouteExtraction
  import opened Facilities

  /** The number of segments between consecutive points. */
  function SegmentCount(points: seq<Coord>): nat
  {
    if |points| == 0 then 0 else |points| - 1
  }

  /** The distance from `location` to segment `i`, which joins points `i` and `i + 1`. */
  function SegmentDistance(centralAngle: CentralAngle, location: Coord, points: seq<Coord>, i: nat): real
    requires i + 1 < |points|
  {
    DistanceToLineSegment(centralAngle, location, points[i], points[i + 1])
  }

  function Min(a: real, b: real): real
  {
    if a <= b then a else b
  }

  /**
   * The smallest distance from `location` to the first `n` segments; `None`
   * stands for the unbounded starting minimum, kept when there is no segment.
   */
  function MinSegmentDistance(centralAngle: CentralAngle, location: Coord, points: seq<Coord>, n: nat): (r: Option<real>)
    requires n <= SegmentCount(points)
    ensures r.None? <==> n == 0
    ensures r.Some? ==> exists i :: 0 <= i < n && r.value == SegmentDistance(centralAngle, location, points, i)
    ensures r.Some? ==> forall i :: 0 <= i < n ==> r.value <= SegmentDistance(centralAngle, location, points, i)
  {
    if n == 0 then None
    else
      var previous := MinSegmentDistance(centralAngle, location, points, n - 1);
      var d := SegmentDistance(centralAngle, location, points, n - 1);
      Some(if previous.None? then d else Min(previous.value, d))
  }

  /** Whether `location` is within `radiusKm` of the polyline through `points`. */
  predicate InCorridor(centralAngle: CentralAngle, location: Coord, points: seq<Coord>, radiusKm: real)
  {
    var m := MinSegmentDistance(centralAngle, location, points, SegmentCount(points));
    m.Some? && m.value <= radiusKm
  }

  function CorridorTest(centralAngle: CentralAngle, points: seq<Coord>, radiusKm: real): Facility -> bool
  {
    (f: Facility) => InCorridor(centralAngle, f.location, points, radiusKm)
  }

  /** The legs of a route, with a missing route or missing legs read as none. */
  function LegsOf(route: Option<Route>): seq<Leg>
  {
    if route.Some? && route.value.legs.Some? then route.value.legs.value else []
  }

  /** The catalogue entries inside the route's corridor, in catalogue order. */
  function FacilitiesAlongRoute(
    centralAngle: CentralAngle, catalogue: seq<Facility>, route: Option<Route>, radiusKm: real := DefaultRadiusKm)
    : seq<Facility>
  {
    var legs := LegsOf(route);
    if |legs| == 0 then [] else Filter(catalogue, CorridorTest(centralAngle, RoutePoints(legs), radiusKm))
  }

  /** Scans the segments once, keeping the running minimum. */
  method MinRouteDistance(centralAngle: CentralAngle, location: Coord, routePoints: seq<Coord>)
    returns (minDistance: Option<real>)
    ensures minDistance == MinSegmentDistance(centralAngle, location, routePoints, SegmentCount(routePoints))
  {
    minDistance := None;
    var i := 0;
    while i < |routePoints| - 1
      invariant 0 <= i <= SegmentCount(routePoints)
      invariant minDistance == MinSegmentDistance(centralAngle, location, routePoints, i)
    {
      var distance := DistanceToLineSegment(centralAngle, location, routePoints[i], routePoints[i + 1]);
      minDistance := Some(if minDistance.None? then distance else Min(minDistance.value, distance));
      i := i + 1;
    }
  }

  /** The service's corridor query: extract the route points, then keep each facility within the radius. */
  method GetFacilitiesAlongRoute(
    centralAngle: CentralAngle, catalogue: seq<Facility>, route: Option<Route>, radiusKm: real := DefaultRadiusKm)
    returns (result: seq<Facility>)
    ensures result == FacilitiesAlongRoute(centralAngle, catalogue, route, radiusKm)
  {
    if route.None? || route.value.legs.None? || |route.value.legs.value| == 0 {
      return [];
    }
    var legs := route.value.legs.value;
    var routePoints := ExtractRoutePoints(legs);
    ghost var keep := CorridorTest(centralAngle, routePoints, radiusKm);
    result := [];
    var k := 0;
    while k < |catalogue|
      invariant 0 <= k <= |catalogue|
      invariant result == Filter(catalogue[..k], keep)
    {
      var facility := catalogue[k];
      var minDistance := MinRouteDistance(centralAngle, facility.location, routePoints);
      FilterExtend(catalogue, k, keep);
      if minDistance.Some? && minDistance.value <= radiusKm {
        result := result + [facility];
      }
      k := k + 1;
    }
    assert catalogue[..k] == catalogue;
  }

  /** The minimum is within the radius exactly when some segment is. */
  lemma InCorridorIff(centralAngle: CentralAngle, location: Coord, points: seq<Coord>, radiusKm: real)
    ensures InCorridor(centralAngle, location, points, radiusKm) <==>
              exists i :: 0 <= i && i + 1 < |points| && SegmentDistance(centralAngle, location, points, i) <= radiusKm
  {
    var n := SegmentCount(points);
    if exists i :: 0 <= i && i + 1 < |points| && SegmentDistance(centralAngle, location, points, i) <= radiusKm {
      var i :| 0 <= i && i + 1 < |points| && SegmentDistance(centralAngle, location, points, i) <= radiusKm;
      assert i < n;
    }
  }

  /**
   * A facility is along the route exactly when the route has legs, the facility
   * is in the catalogue, and some segment of the route points is within the radius.
   * A missing route, missing legs or zero legs give the empty sequence.
   */
  lemma AlongRouteMembership(
    centralAngle: CentralAngle, catalogue: seq<Facility>, route: Option<Route>, radiusKm: real, f: Facility)
    ensures f in FacilitiesAlongRoute(centralAngle, catalogue, route, radiusKm) <==>
              f in catalogue && |LegsOf(route)| > 0 &&
              var points := RoutePoints(LegsOf(route));
              exists i :: 0 <= i && i + 1 < |points| && SegmentDistance(centralAngle, f.location, points, i) <= radiusKm
    ensures |LegsOf(route)| == 0 ==> FacilitiesAlongRoute(centralAngle, catalogue, route, radiusKm) == []
  {
    var legs := LegsOf(route);
    if |legs| > 0 {
      var points := RoutePoints(legs);
      FilterMembership(catalogue, CorridorTest(centralAngle, points, radiusKm));
      InCorridorIff(centralAngle, f.location, points, radiusKm);
    }
  }

  /** A route with fewer than two points has no segment, so nothing is along it. */
  lemma AlongRouteNeedsASegment(
    centralAngle: CentralAngle, catalogue: seq<Facility>, route: Option<Route>, radiusKm: real)
    requires |RoutePoints(LegsOf(route))| < 2
    ensures FacilitiesAlongRoute(centralAngle, catalogue, route, radiusKm) == []
  {
    var legs := LegsOf(route);
    if |legs| > 0 {
      FilterNone(catalogue, CorridorTest(centralAngle, RoutePoints(legs), radiusKm));
    }
  }

  /**
   * For every route the service accepts, the result is an order-preserving
   * subsequence of the catalogue holding every occurrence of each facility in
   * the corridor and nothing else.
   */
  lemma AlongRouteExact(
    centralAngle: CentralAngle, catalogue: seq<Facility>, route: Option<Route>, radiusKm: real)
    ensures IsSubsequence(FacilitiesAlongRoute(centralAngle, catalogue, route, radiusKm), catalogue)
    ensures forall f ::
              multiset(FacilitiesAlongRoute(centralAngle, catalogue, route, radiusKm))[f] ==
              if InCorridor(centralAngle, f.location, RoutePoints(LegsOf(route)), radiusKm)
              then multiset(catalogue)[f] else 0
  {
    if |LegsOf(route)| == 0 {
      assert RoutePoints(LegsOf(route)) == [];
    }
    var keep := CorridorTest(centralAngle, RoutePoints(LegsOf(route)), radiusKm);
    FilterIsSubsequence(catalogue, keep);
    FilterMultiplicity(catalogue, keep);
  }

  /** Widening the corridor keeps everything the narrower one keeps, in the same order. */
  lemma AlongRouteMonotone(
    centralAngle: CentralAngle, catalogue: seq<Facility>, route: Option<Route>, r1: real, r2: real)
    requires r1 <= r2
    ensures IsSubsequence(FacilitiesAlongRoute(centralAngle, catalogue, route, r1),
                          FacilitiesAlongRoute(centralAngle, catalogue, route, r2))
  {
    var legs := LegsOf(route);
    if |legs| > 0 {
      var points := RoutePoints(legs);
      FilterMonotone(catalogue, CorridorTest(centralAngle, points, r1), CorridorTest(centralAngle, points, r2));
    }
  }

  /** No distance is negative, so a negative radius finds nothing. */
  lemma AlongRouteNegativeRadius(
    centralAngle: CentralAngle, catalogue: seq<Facility>, route: Option<Route>, radiusKm: real)
    requires IsCentralAngle(centralAngle)
    requires radiusKm < 0.0
    ensures FacilitiesAlongRoute(centralAngle, catalogue, route, radiusKm) == []
  {
    var legs := LegsOf(route);
    if |legs| > 0 {
      var points := RoutePoints(legs);
      forall f: Facility
        ensures !InCorridor(centralAngle, f.location, points, radiusKm)
      {
        InCorridorIff(centralAngle, f.location, points, radiusKm);
        forall i | 0 <= i && i + 1 < |points|
          ensures SegmentDistance(centralAngle, f.location, points, i) >= 0.0
        {
          DistanceToLineSegmentNonNegative(centralAngle, f.location, points[i], points[i + 1]);
        }
      }
      FilterNone(catalogue, CorridorTest(centralAngle, points, radiusKm));
    }
  }

  /**
   * A catalogue facility standing anywhere on a segment of the route is along
   * the route for every radius that is not negative.
   */
  lemma AlongRouteKeepsFacilityOnSegment(
    centralAngle: CentralAngle, catalogue: seq<Facility>, route: Option<Route>, radiusKm: real,
    k: nat, i: nat, t: real)
    requires IsCentralAngle(centralAngle)
    requires radiusKm >= 0.0 && k < |catalogue|
    requires i + 1 < |RoutePoints(LegsOf(route))| && 0.0 <= t <= 1.0
    requires catalogue[k].location == Lerp(RoutePoints(LegsOf(route))[i], RoutePoints(LegsOf(route))[i + 1], t)
    ensures catalogue[k] in FacilitiesAlongRoute(centralAngle, catalogue, route, radiusKm)
  {
    var points := RoutePoints(LegsOf(route));
    PointOnSegmentMeasuresZero(centralAngle, points[i], points[i + 1], t);
    assert SegmentDistance(centralAngle, catalogue[k].location, points, i) <= radiusKm;
    AlongRouteMembership(centralAngle, catalogue, route, radiusKm, catalogue[k]);
  }

  /**
   * With no path points, the corridor runs through the leg ends: a facility at
   * the start or the end of any leg is along the route for every radius that is
   * not negative.
   */
  lemma FallbackKeepsLegEnds(
    centralAngle: CentralAngle, catalogue: seq<Facility>, route: Option<Route>, radiusKm: real, k: nat, leg: nat)
    requires IsCentralAngle(centralAngle)
    requires radiusKm >= 0.0 && k < |catalogue|
    requires PathPoints(LegsOf(route)) == [] && leg < |LegsOf(route)|
    requires catalogue[k].location == LegsOf(route)[leg].start || catalogue[k].location == LegsOf(route)[leg].end
    ensures catalogue[k] in FacilitiesAlongRoute(centralAngle, catalogue, route, radiusKm)
  {
    var points := RoutePoints(LegsOf(route));
    assert points[2 * leg] == LegsOf(route)[leg].start && points[2 * leg + 1] == LegsOf(route)[leg].end;
    var t := if catalogue[k].location == LegsOf(route)[leg].start then 0.0 else 1.0;
    assert Lerp(points[2 * leg], points[2 * leg + 1], t) == catalogue[k].location;
    AlongRouteKeepsFacilityOnSegment(centralAngle, catalogue, route, radiusKm, k, 2 * leg, t);
  }
}
