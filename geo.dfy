/**
 * Geographic coordinates and the geodesic fallback distance (geo.h).
 *
 * The great-circle formula is floating-point trigonometry; it stays outside the model as the
 * parameter `arc`, which stands for `static_cast<int>` of that formula for two distinct points.
 * What the model keeps is the branch geo.h takes before the trigonometry: two points that agree
 * within EPSILON in both components are at distance 0.
 */
module Geo {

  datatype Coordinates = Coordinates(lat: real, lng: real)

  /** EPSILON of geo.h: 1e-6 degrees. */
  const Epsilon: real := 0.000001

  function Abs(x: real): real { if x < 0.0 then -x else x }

  /** `Coordinates::operator==`: equality within Epsilon in both components. */
  predicate SamePoint(a: Coordinates, b: Coordinates) {
    Abs(a.lat - b.lat) < Epsilon && Abs(a.lng - b.lng) < Epsilon
  }

  /** `ComputeDistance` truncated to int, with the trigonometric part supplied as `arc`. */
  function GeoDistance(arc: (Coordinates, Coordinates) -> int, a: Coordinates, b: Coordinates): int
  {
    if SamePoint(a, b) then 0 else arc(a, b)
  }

  /** Near-equality is symmetric, so the zero branch of the geodesic does not depend on argument order. */
  lemma SamePointSymmetric(a: Coordinates, b: Coordinates)
    ensures SamePoint(a, b) <==> SamePoint(b, a)
  {
    assert Abs(a.lat - b.lat) == Abs(b.lat - a.lat);
    assert Abs(a.lng - b.lng) == Abs(b.lng - a.lng);
  }
}
