/**
 * The facility catalogue and its simple queries: by type, by id, and by
 * great-circle distance from a location. The catalogue is a parameter;
 * `DemoFacilities` is the fixed demo catalogue the service ships with.
 */
module Facilities {
  import opened Wrappers
  import opened Sequences
  import opened Geometry

  datatype FacilityType = DistributionCenter | FuelStation | Warehouse

  /** A supply-chain location. `detourTime` is in minutes. */
  datatype Facility = Facility(
    id: string,
    name: string,
    kind: FacilityType,
    location: Coord,
    address: string,
    detourTime: int,
    services: seq<string>)

  /** The search radius, in kilometres, that callers get when they give none. */
  const DefaultRadiusKm: real := 5.0

  const DemoFacilities: seq<Facility> := [
    Facility("dc_kolkata_001", "Kolkata Central Distribution Hub", DistributionCenter,
      Coord(22.5726, 88.3639), "Salt Lake Sector V, Kolkata, West Bengal 700091", 15,
      ["loading_dock", "overnight_storage", "cross_docking", "inventory_management"]),
    Facility("fuel_nh2_001", "Highway Fuel Station NH-2", FuelStation,
      Coord(22.8046, 86.2029), "NH-2, Kharagpur, West Bengal 721301", 8,
      ["diesel_refuel", "driver_rest", "vehicle_maintenance", "24_hour_service"]),
    Facility("warehouse_durgapur_001", "Durgapur Industrial Warehouse", Warehouse,
      Coord(23.5204, 87.3119), "City Centre, Durgapur, West Bengal 713216", 12,
      ["bulk_storage", "packaging", "quality_control", "cold_storage"])
  ]

  /** No two entries of the catalogue share an id. */
  ghost predicate UniqueIds(catalogue: seq<Facility>)
  {
    forall i, j :: 0 <= i < j < |catalogue| ==> catalogue[i].id != catalogue[j].id
  }

  lemma DemoFacilitiesHaveUniqueIds()
    ensures UniqueIds(DemoFacilities)
  {
  }

  // ---- getFacilitiesByType ----

  function OfType(kind: FacilityType): Facility -> bool
  {
    (f: Facility) => f.kind == kind
  }

  /** The catalogue entries of the given type, in catalogue order. */
  function FacilitiesByType(catalogue: seq<Facility>, kind: FacilityType): seq<Facility>
  {
    Filter(catalogue, OfType(kind))
  }

  /**
   * Exactly the entries of that type: an order-preserving subsequence of the
   * catalogue holding every occurrence of each entry of the type and nothing else.
   */
  lemma FacilitiesByTypeExact(catalogue: seq<Facility>, kind: FacilityType)
    ensures IsSubsequence(FacilitiesByType(catalogue, kind), catalogue)
    ensures forall f ::
              multiset(FacilitiesByType(catalogue, kind))[f] ==
              if f.kind == kind then multiset(catalogue)[f] else 0
    ensures forall f :: f in FacilitiesByType(catalogue, kind) <==> f in catalogue && f.kind == kind
  {
    FilterIsSubsequence(catalogue, OfType(kind));
    FilterMultiplicity(catalogue, OfType(kind));
    FilterMembership(catalogue, OfType(kind));
  }

  // ---- getFacilityById ----

  /** The first entry with the given id, or `None` when no entry has it. */
  function FacilityById(catalogue: seq<Facility>, id: string): (r: Option<Facility>)
    ensures r.None? <==> forall i :: 0 <= i < |catalogue| ==> catalogue[i].id != id
    ensures r.Some? ==>
              exists i :: 0 <= i < |catalogue| && catalogue[i] == r.value && r.value.id == id &&
                          forall j :: 0 <= j < i ==> catalogue[j].id != id
  {
    if catalogue == [] then None
    else if catalogue[0].id == id then Some(catalogue[0])
    else
      var r := FacilityById(catalogue[1..], id);
      assert r.Some? ==>
               exists i :: 0 < i < |catalogue| && catalogue[i] == r.value && r.value.id == id &&
                           forall j :: 0 <= j < i ==> catalogue[j].id != id
        by {
          if r.Some? {
            var i :| 0 <= i < |catalogue[1..]| && catalogue[1..][i] == r.value && r.value.id == id
              && forall j :: 0 <= j < i ==> catalogue[1..][j].id != id;
            assert catalogue[i + 1] == r.value;
            assert forall j :: 0 < j < i + 1 ==> catalogue[j].id == catalogue[1..][j - 1].id;
          }
        }
      r
  }

  /** With unique ids, looking up an entry's id finds that very entry. */
  lemma FacilityByIdFindsEntry(catalogue: seq<Facility>, k: nat)
    requires UniqueIds(catalogue)
    requires k < |catalogue|
    ensures FacilityById(catalogue, catalogue[k].id) == Some(catalogue[k])
  {
    var r := FacilityById(catalogue, catalogue[k].id);
    var i :| 0 <= i < |catalogue| && catalogue[i] == r.value && r.value.id == catalogue[k].id
      && forall j :: 0 <= j < i ==> catalogue[j].id != catalogue[k].id;
    assert i == k;
  }

  // ---- getFacilitiesNearLocation ----

  function WithinRadiusOf(centralAngle: CentralAngle, center: Coord, radiusKm: real): Facility -> bool
  {
    (f: Facility) => CalculateDistance(centralAngle, center, f.location) <= radiusKm
  }

  /** The catalogue entries whose great-circle distance from `(lat, lng)` is at most `radiusKm`, in catalogue order. */
  function FacilitiesNearLocation(
    centralAngle: CentralAngle, catalogue: seq<Facility>, lat: real, lng: real, radiusKm: real := DefaultRadiusKm)
    : seq<Facility>
  {
    Filter(catalogue, WithinRadiusOf(centralAngle, Coord(lat, lng), radiusKm))
  }

  /**
   * An order-preserving subsequence of the catalogue that holds every
   * occurrence of each entry within the radius and nothing else.
   */
  lemma FacilitiesNearLocationExact(
    centralAngle: CentralAngle, catalogue: seq<Facility>, lat: real, lng: real, radiusKm: real)
    ensures IsSubsequence(FacilitiesNearLocation(centralAngle, catalogue, lat, lng, radiusKm), catalogue)
    ensures forall f ::
              multiset(FacilitiesNearLocation(centralAngle, catalogue, lat, lng, radiusKm))[f] ==
              if CalculateDistance(centralAngle, Coord(lat, lng), f.location) <= radiusKm
              then multiset(catalogue)[f] else 0
    ensures forall f :: f in FacilitiesNearLocation(centralAngle, catalogue, lat, lng, radiusKm) <==>
      f in catalogue && CalculateDistance(centralAngle, Coord(lat, lng), f.location) <= radiusKm
  {
    var keep := WithinRadiusOf(centralAngle, Coord(lat, lng), radiusKm);
    FilterIsSubsequence(catalogue, keep);
    FilterMultiplicity(catalogue, keep);
    FilterMembership(catalogue, keep);
  }

  /** A larger radius keeps everything a smaller one keeps, in the same order. */
  lemma FacilitiesNearLocationMonotone(
    centralAngle: CentralAngle, catalogue: seq<Facility>, lat: real, lng: real, r1: real, r2: real)
    requires r1 <= r2
    ensures IsSubsequence(FacilitiesNearLocation(centralAngle, catalogue, lat, lng, r1),
                          FacilitiesNearLocation(centralAngle, catalogue, lat, lng, r2))
    ensures forall f :: f in FacilitiesNearLocation(centralAngle, catalogue, lat, lng, r1) ==>
                        f in FacilitiesNearLocation(centralAngle, catalogue, lat, lng, r2)
  {
    var p1 := WithinRadiusOf(centralAngle, Coord(lat, lng), r1);
    var p2 := WithinRadiusOf(centralAngle, Coord(lat, lng), r2);
    FilterMonotone(catalogue, p1, p2);
    SubsequenceMembers(Filter(catalogue, p1), Filter(catalogue, p2));
  }

  /** No distance is negative, so a negative radius finds nothing. */
  lemma FacilitiesNearLocationNegativeRadius(
    centralAngle: CentralAngle, catalogue: seq<Facility>, lat: real, lng: real, radiusKm: real)
    requires IsCentralAngle(centralAngle)
    requires radiusKm < 0.0
    ensures FacilitiesNearLocation(centralAngle, catalogue, lat, lng, radiusKm) == []
  {
    FilterNone(catalogue, WithinRadiusOf(centralAngle, Coord(lat, lng), radiusKm));
  }

  /** A facility standing exactly at the searched location is found for any radius that is not negative. */
  lemma FacilitiesNearLocationKeepsCenter(
    centralAngle: CentralAngle, catalogue: seq<Facility>, k: nat, radiusKm: real)
    requires IsCentralAngle(centralAngle)
    requires k < |catalogue| && radiusKm >= 0.0
    ensures catalogue[k] in FacilitiesNearLocation(
      centralAngle, catalogue, catalogue[k].location.lat, catalogue[k].location.lng, radiusKm)
  {
    var c := catalogue[k].location;
    assert Coord(c.lat, c.lng) == c;
    FilterMembership(catalogue, WithinRadiusOf(centralAngle, c, radiusKm));
  }
}
