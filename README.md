# Route-corridor facility matcher

A Dafny model of the facility service of OptiLogiX
(`frontend/src/services/facilityDataService.ts`). The service holds a small
catalogue of supply-chain facilities (distribution centres, fuel stations,
warehouses) and answers four queries over it:

- facilities of one type;
- the facility with a given id;
- facilities within a radius of a location;
- facilities within a radius of a directions route (the route "corridor").

The corridor query is the core. It turns the route into a polyline: every
point of every step's path, leg by leg and step by step. When no step carries
a path point, it uses each leg's start and end instead. A facility is kept
when its smallest distance to a segment of that polyline is within the
radius. The distance to a segment projects the facility onto the segment in
the plane of (latitude, longitude). It clamps the projection to the segment
and measures the great-circle distance to that point.

Modules:

- `Wrappers`: `Option`, standing for `undefined` and for the `Infinity` that
  starts the running minimum.
- `Sequences`: `Filter`, the model of `Array.prototype.filter`, with its
  lemmas (subsequence, multiplicity, membership, monotonicity).
- `Geometry`: coordinates, the great-circle distance and the point-to-segment
  distance.
- `Facilities`: the facility record, the demo catalogue, and the by-type,
  by-id and near-location queries.
- `RouteExtraction`: the route, leg and step records, and the extraction of
  route points.
- `Corridor`: the running minimum over segments and the corridor query.

The service's loops are methods, each proved equal to a specification
function: `ExtractRoutePoints`, `MinRouteDistance` and
`GetFacilitiesAlongRoute`. The properties are lemmas about those functions.
The catalogue is a parameter of every query. `Facilities.DemoFacilities` is
the demo catalogue the service ships with. The 5 km default radius is a
default parameter value.

The haversine formula itself is not expanded. Its central angle is a function
given to each query as `centralAngle`. The lemmas that need it assume the
angle is never negative, is zero between equal points, and is symmetric
(`Geometry.IsCentralAngle`).

The service has no explicit check for fewer than two route points. The
segment loop at lines 196-206 then never runs, the minimum stays unbounded and
nothing is kept. `Corridor.AlongRouteNeedsASegment` proves this for every real
radius. `getFacilitiesNearLocation` passes the query point first (lines
97-101), and so does the model.

The record type `SupplyChainFacility` is defined in
`frontend/src/types/routeOptimization.ts`, which is not part of this model.
Its fields are taken from the catalogue entries at lines 12-40.

## Model

| member | source | states |
|---|---|---|
| Geometry.DistanceProperties | frontend/src/services/facilityDataService.ts:71-86 | Under the angle assumptions, the great-circle distance is non-negative, zero from a point to itself, and symmetric |
| Geometry.SegmentLengthZeroIff | frontend/src/services/facilityDataService.ts:120-129 | `lenSq` is zero exactly when the two ends of the segment coincide, so the degenerate branch is taken exactly for zero-length segments |
| Geometry.DegenerateSegment | frontend/src/services/facilityDataService.ts:124-129 | A zero-length segment measures as the plain great-circle distance to its single point |
| Geometry.NearestLiesOnSegment | frontend/src/services/facilityDataService.ts:131-144 | The three branches on `param` pick the segment point at the projection parameter clamped to [0, 1], so the measured-to point always lies on the segment |
| Geometry.NearestIsClosest | frontend/src/services/facilityDataService.ts:118-146 | In the (lat, lng) plane, the measured-to point is at least as close to the facility as every point of the segment |
| Geometry.NearestNoFartherThanEnds | frontend/src/services/facilityDataService.ts:118-146 | In the (lat, lng) plane, the measured-to point is no farther from the facility than either end of the segment |
| Geometry.PointOnSegmentMeasuresZero | frontend/src/services/facilityDataService.ts:110-147 | A point anywhere on a segment is at distance zero from it |
| Geometry.EndsMeasureZero | frontend/src/services/facilityDataService.ts:110-147 | Both ends of a segment are at distance zero from it |
| Geometry.DistanceToLineSegmentNonNegative | frontend/src/services/facilityDataService.ts:110-147 | The segment distance is never negative |
| Facilities.DemoFacilitiesHaveUniqueIds | frontend/src/services/facilityDataService.ts:12-40 | No two demo facilities share an id |
| Facilities.FacilitiesByTypeExact | frontend/src/services/facilityDataService.ts:56-58 | The result is an order-preserving subsequence of the catalogue. It holds every occurrence of each facility of the type and nothing else |
| Facilities.FacilityById | frontend/src/services/facilityDataService.ts:63-65 | Gives none exactly when no entry has the id. Otherwise it gives the first entry with that id: every earlier entry has a different id |
| Facilities.FacilityByIdFindsEntry | frontend/src/services/facilityDataService.ts:63-65 | When ids are unique, looking up an entry's id gives that entry |
| Facilities.FacilitiesNearLocationExact | frontend/src/services/facilityDataService.ts:91-104 | The result is an order-preserving subsequence of the catalogue. It holds every occurrence of each facility within the radius of the query point and nothing else |
| Facilities.FacilitiesNearLocationMonotone | frontend/src/services/facilityDataService.ts:91-104 | A larger radius keeps everything a smaller one keeps, in the same order |
| Facilities.FacilitiesNearLocationNegativeRadius | frontend/src/services/facilityDataService.ts:91-104 | A negative radius finds nothing |
| Facilities.FacilitiesNearLocationKeepsCenter | frontend/src/services/facilityDataService.ts:91-104 | A facility standing at the query point is found for every non-negative radius |
| RouteExtraction.EndpointPoints | frontend/src/services/facilityDataService.ts:177-189 | The fallback has exactly two points per leg: point 2k is leg k's start and point 2k+1 is its end |
| RouteExtraction.ExtractRoutePoints | frontend/src/services/facilityDataService.ts:161-189 | The point-by-point loops build exactly the route points: the path points in order, or the leg ends when there are none |
| RouteExtraction.StepsPathPointsAppend | frontend/src/services/facilityDataService.ts:165-174 | The path points of two runs of steps are those of the first run followed by those of the second |
| RouteExtraction.PathPointsAppend | frontend/src/services/facilityDataService.ts:164-175 | The path points of two runs of legs are those of the first run followed by those of the second, so legs contribute in route order |
| RouteExtraction.PathlessStepContributesNothing | frontend/src/services/facilityDataService.ts:166-173 | A step without a path leaves the extracted points unchanged wherever it stands |
| RouteExtraction.StepsPathPointsMembership | frontend/src/services/facilityDataService.ts:165-174 | A point is among a run's path points exactly when some step of the run has it on its path |
| RouteExtraction.PathPointsMembership | frontend/src/services/facilityDataService.ts:164-175 | A point is a path point exactly when some step of some leg has it on its path |
| RouteExtraction.RoutePointsMembership | frontend/src/services/facilityDataService.ts:161-189 | A point is a route point exactly when it lies on some step's path, or when no step has a path point and it is the start or end of some leg |
| RouteExtraction.FallbackPoints | frontend/src/services/facilityDataService.ts:177-189 | The fallback is used exactly when every present path is empty. It is never used when a path point exists. It then gives 2 × legs points, so a route with a leg has at least one segment |
| Corridor.MinSegmentDistance | frontend/src/services/facilityDataService.ts:193-206 | The running minimum over the first n segments is unbounded (none) exactly when n is 0. Otherwise it is the distance to one of those segments and no larger than the distance to any of them |
| Corridor.MinRouteDistance | frontend/src/services/facilityDataService.ts:193-206 | The loop over `i < routePoints.length - 1` computes the minimum over all segments, and leaves it unbounded when there are fewer than two points |
| Corridor.GetFacilitiesAlongRoute | frontend/src/services/facilityDataService.ts:153-210 | The guard, the extraction and the filter loop together give exactly the corridor result |
| Corridor.InCorridorIff | frontend/src/services/facilityDataService.ts:193-208 | The minimum is within the radius exactly when some segment is |
| Corridor.AlongRouteMembership | frontend/src/services/facilityDataService.ts:153-210 | A facility is returned exactly when three things hold: the route has legs, the facility is in the catalogue, and some segment of the route points is within the radius. A missing route, missing legs or zero legs return the empty sequence whatever the catalogue and radius |
| Corridor.AlongRouteNeedsASegment | frontend/src/services/facilityDataService.ts:195-208 | Fewer than two route points return nothing |
| Corridor.AlongRouteExact | frontend/src/services/facilityDataService.ts:157-209 | For every route, including a missing route, missing legs or zero legs, the result is an order-preserving subsequence of the catalogue. It holds every occurrence of each facility in the corridor and nothing else |
| Corridor.AlongRouteMonotone | frontend/src/services/facilityDataService.ts:192-209 | A wider corridor keeps everything a narrower one keeps, in the same order |
| Corridor.AlongRouteNegativeRadius | frontend/src/services/facilityDataService.ts:192-209 | A negative radius returns nothing |
| Corridor.AlongRouteKeepsFacilityOnSegment | frontend/src/services/facilityDataService.ts:192-209 | A catalogue facility anywhere on a route segment is returned for every non-negative radius |
| Corridor.FallbackKeepsLegEnds | frontend/src/services/facilityDataService.ts:177-209 | Without path points, a catalogue facility at the start or end of any leg is returned for every non-negative radius |

## Left out

- Haversine trigonometry (lines 71-86): sin, cos, sqrt and atan2 over reals are not modelled. The central angle is a parameter, and only its assumptions in `Geometry.IsCentralAngle` are used. Distance values for concrete coordinates, such as those between the demo facilities, are therefore not derived.
- Geometry.NearestNoFartherThanEnds: proves "the measured-to point is no farther than either end" for planar distance, not great-circle distance. The service's doc comment (line 107) promises the shortest distance. The planar projection only approximates it: for long segments the measured-to point can be much farther, in great-circle distance, than an end of the segment, so the great-circle form of this bound does not hold of the service's formulas.
- Geometry.NearestIsClosest: likewise stated for planar distance only.
- Floating point: the model computes with exact reals. IEEE rounding, `NaN` coordinates, and a `lenSq` that underflows to 0 for a tiny non-zero segment are not captured.
- Corridor.AlongRouteNeedsASegment: holds for every real radius, and the model has no infinite radius. In the service, `radiusKm = Infinity` with fewer than two route points compares `Infinity <= Infinity`, which is true, so every facility would be kept.
- The Google Maps types: `google.maps.DirectionsRoute` and `LatLng` accessors become plain records. The step fields the service never reads (start, end, instructions) are dropped.
- `getAllFacilities` (lines 49-51) returns the catalogue itself. In the model that is the catalogue parameter, so it has no separate member.
- The catalogue is a parameter instead of the module-level `DEMO_FACILITIES`. `Facilities.DemoFacilities` holds the demo values.
- Everything outside the facility service is not part of this model: UI components, hooks, the e-mail service and the backends.
