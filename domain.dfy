/**
 * The records of domain.h. Stops and buses live in append-only arenas inside the catalogue
 * (std::deque in transport_catalogue.h), so the `Stop*` and `Bus*` pointers of the C++ code
 * become indices into those arenas.
 */
module Domain {
  import opened Wrappers
  import opened Geo

  /** Index of a record in its arena; stands for the C++ pointer to that record. */
  type Handle = nat

  /** `Stop`: its name, its coordinates and the names of the buses that call at it. */
  datatype Stop = Stop(name: string, coordinates: Coordinates, buses: set<string>)

  /**
   * `Bus`: the stored stop sequence (a linear route already expanded to the round trip), the
   * number of distinct stops, the road length in meters and the ring flag. The curvature
   * field is floating point and is not part of the model.
   */
  datatype Bus = Bus(name: string, stops: seq<Handle>, uniqueStops: nat, distance: int, isRing: bool)

  /**
   * A key of the distance table: an ordered pair of stop pointers. `None` stands for the
   * null pointer `FindStop` yields for a name never added. The table's comparator
   * `DistanceCompare` (transport_catalogue.h:28-33) holds exactly when both components agree in
   * position, which is the equality of these pairs, so the map is keyed by plain equality and
   * (A, B) and (B, A) are different entries unless A == B.
   */
  type DistanceKey = (Option<Handle>, Option<Handle>)
}
