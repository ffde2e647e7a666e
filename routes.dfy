/**
 * Route storage and road distance of transport_catalogue.cpp on plain values: the
 * out-and-back expansion of a linear route, the distinct-stop count, the lookup order of
 * `GetDistance` and the summed road length of a stored route.
 */
module Routes {
  import opened Wrappers
  import opened Geo
  import opened Domain

  function Reverse<T>(s: seq<T>): (r: seq<T>)
    ensures |r| == |s|
  {
    if |s| == 0 then [] else Reverse(s[1..]) + [s[0]]
  }

  lemma {:induction false} ReverseAt<T>(s: seq<T>, i: nat)
    requires i < |s|
    ensures Reverse(s)[i] == s[|s| - 1 - i]
  {
    if i < |s| - 1 {
      ReverseAt(s[1..], i);
    }
  }

  /**
   * The stored form of a linear route: the stops out and then back again, i.e. the input
   * followed by its reverse without the last stop.
   */
  function Expanded(s: seq<Handle>): seq<Handle>
    requires |s| >= 1
  {
    s + Reverse(s[..|s| - 1])
  }

  /** What `AddBus` stores: a ring as given, a linear route expanded. */
  function StoredRoute(s: seq<Handle>, isRing: bool): seq<Handle>
    requires isRing || |s| >= 1
  {
    if isRing then s else Expanded(s)
  }

  /**
   * A linear route of n stops is stored as 2n - 1 stops: the input, then the input backwards,
   * so the stored sequence is a palindrome that starts and ends at the first stop.
   */
  lemma ExpandedShape(s: seq<Handle>)
    requires |s| >= 1
    ensures |Expanded(s)| == 2 * |s| - 1
    ensures forall i :: 0 <= i < |s| ==> Expanded(s)[i] == s[i]
    ensures forall i :: |s| <= i < 2 * |s| - 1 ==> Expanded(s)[i] == s[2 * |s| - 2 - i]
    ensures forall i :: 0 <= i < 2 * |s| - 1 ==> Expanded(s)[i] == Expanded(s)[2 * |s| - 2 - i]
    ensures Expanded(s)[0] == Expanded(s)[2 * |s| - 2] == s[0]
  {
    var n := |s|;
    var e := Expanded(s);
    forall i | n <= i < 2 * n - 1 ensures e[i] == s[2 * n - 2 - i] {
      ReverseAt(s[..n - 1], i - n);
    }
  }

  /** The set of stops a sequence visits. */
  function Elements(s: seq<Handle>): set<Handle> {
    set h | h in s
  }

  /** Expansion repeats stops but adds none: the distinct stops are the same before and after. */
  lemma ExpandedElements(s: seq<Handle>)
    requires |s| >= 1
    ensures Elements(Expanded(s)) == Elements(s)
  {
    ExpandedShape(s);
    var n := |s|;
    forall h | h in Elements(Expanded(s)) ensures h in Elements(s) {
      var i :| 0 <= i < 2 * n - 1 && Expanded(s)[i] == h;
      if i >= n { assert s[2 * n - 2 - i] == h; }
    }
  }

  /** A non-empty route has at least one and at most as many distinct stops as entries. */
  lemma {:induction false} ElementsBounds(s: seq<Handle>)
    ensures |Elements(s)| <= |s|
    ensures |s| >= 1 ==> |Elements(s)| >= 1
  {
    if |s| > 0 {
      ElementsBounds(s[1..]);
      assert Elements(s) == Elements(s[1..]) + {s[0]};
    } else {
      assert Elements(s) == {};
    }
  }

  /**
   * The distinct-stop count of `AddBus` (transport_catalogue.cpp:39-43): every resolved stop
   * pointer is put into an unordered_set and the set's size is taken.
   */
  method CountUnique(stops: seq<Handle>) returns (count: nat)
    ensures count == |Elements(stops)|
  {
    var seen: set<Handle> := {};
    for i := 0 to |stops|
      invariant seen == Elements(stops[..i])
    {
      assert stops[..i + 1] == stops[..i] + [stops[i]];
      seen := seen + {stops[i]};
    }
    assert stops[..|stops|] == stops;
    count := |seen|;
  }

  /**
   * The expansion loop of `AddBus` (transport_catalogue.cpp:46-51): walking back from the
   * next-to-last stop to the second one, push each, then push the first stop.
   */
  method ExpandLinear(stops: seq<Handle>) returns (r: seq<Handle>)
    requires |stops| >= 2
    ensures r == Expanded(stops)
  {
    var n := |stops|;
    r := stops;
    var i := n - 2;
    while i > 0
      invariant 0 <= i <= n - 2
      invariant r == stops + Reverse(stops[i + 1..n - 1])
    {
      assert stops[i..n - 1][1..] == stops[i + 1..n - 1];
      r := r + [r[i]];
      i := i - 1;
    }
    assert stops[..n - 1][1..] == stops[1..n - 1];
    r := r + [r[0]];
  }

  /**
   * `GetDistance` (transport_catalogue.cpp:101-109): the (a, b) entry if there is one, else the
   * (b, a) entry, else the geodesic distance of the two stops.
   */
  function Distance(table: map<DistanceKey, int>, stops: seq<Stop>, arc: (Coordinates, Coordinates) -> int,
                    a: Handle, b: Handle): int
    requires a < |stops| && b < |stops|
  {
    if (Some(a), Some(b)) in table then table[(Some(a), Some(b))]
    else if (Some(b), Some(a)) in table then table[(Some(b), Some(a))]
    else GeoDistance(arc, stops[a].coordinates, stops[b].coordinates)
  }

  /**
   * Storing (a, b) = m makes the distance from a to b equal m, makes the distance from b to a
   * equal m unless (b, a) has an entry of its own, and changes no distance between any other
   * pair of stops.
   */
  lemma DistanceAfterStore(table: map<DistanceKey, int>, stops: seq<Stop>, arc: (Coordinates, Coordinates) -> int,
                           a: Handle, b: Handle, m: int, x: Handle, y: Handle)
    requires a < |stops| && b < |stops| && x < |stops| && y < |stops|
    ensures var t := table[(Some(a), Some(b)) := m];
      && Distance(t, stops, arc, a, b) == m
      && Distance(t, stops, arc, b, a)
         == (if a != b && (Some(b), Some(a)) in table then table[(Some(b), Some(a))] else m)
      && ((x, y) != (a, b) && (x, y) != (b, a) ==> Distance(t, stops, arc, x, y) == Distance(table, stops, arc, x, y))
  {
  }

  /**
   * Without an explicit entry in either direction the distance is the geodesic one, and it is
   * the same both ways whenever the geodesic formula is.
   */
  lemma DistanceFallback(table: map<DistanceKey, int>, stops: seq<Stop>, arc: (Coordinates, Coordinates) -> int,
                         a: Handle, b: Handle)
    requires a < |stops| && b < |stops|
    requires (Some(a), Some(b)) !in table && (Some(b), Some(a)) !in table
    requires arc(stops[a].coordinates, stops[b].coordinates) == arc(stops[b].coordinates, stops[a].coordinates)
    ensures Distance(table, stops, arc, a, b) == GeoDistance(arc, stops[a].coordinates, stops[b].coordinates)
    ensures Distance(table, stops, arc, a, b) == Distance(table, stops, arc, b, a)
  {
    SamePointSymmetric(stops[a].coordinates, stops[b].coordinates);
  }

  /** Every handle of the route names a stop of the arena. */
  predicate InArena(route: seq<Handle>, stops: seq<Stop>) {
    forall i :: 0 <= i < |route| ==> route[i] < |stops|
  }

  /** The road length of a stored route: `GetDistance` summed over consecutive stops. */
  function RouteLength(table: map<DistanceKey, int>, stops: seq<Stop>, arc: (Coordinates, Coordinates) -> int,
                       route: seq<Handle>): int
    requires InArena(route, stops)
    decreases |route|
  {
    if |route| < 2 then 0
    else RouteLength(table, stops, arc, route[..|route| - 1])
         + Distance(table, stops, arc, route[|route| - 2], route[|route| - 1])
  }

  /** The loop of `ComputeRouteDistance`: `GetDistance` added up over consecutive stops. */
  method SumDistances(table: map<DistanceKey, int>, stops: seq<Stop>, arc: (Coordinates, Coordinates) -> int,
                      route: seq<Handle>) returns (distance: int)
    requires InArena(route, stops)
    ensures distance == RouteLength(table, stops, arc, route)
  {
    distance := 0;
    var i := 1;
    while i < |route|
      invariant 1 <= i
      invariant |route| >= 1 ==> i <= |route| && distance == RouteLength(table, stops, arc, route[..i])
      invariant |route| == 0 ==> distance == 0
    {
      assert route[..i + 1][..i] == route[..i];
      distance := distance + Distance(table, stops, arc, route[i - 1], route[i]);
      i := i + 1;
    }
    if |route| >= 1 {
      assert route[..i] == route;
    }
  }

  /**
   * Two routes that meet at a stop: the length of the joined route is the sum of the two
   * lengths.
   */
  lemma {:induction false} RouteLengthJoin(table: map<DistanceKey, int>, stops: seq<Stop>,
                                           arc: (Coordinates, Coordinates) -> int, a: seq<Handle>, b: seq<Handle>)
    requires |a| >= 1 && |b| >= 1 && a[|a| - 1] == b[0]
    requires InArena(a, stops) && InArena(b, stops)
    ensures InArena(a + b[1..], stops)
    ensures RouteLength(table, stops, arc, a + b[1..])
            == RouteLength(table, stops, arc, a) + RouteLength(table, stops, arc, b)
    decreases |b|
  {
    var j := a + b[1..];
    if |b| == 1 {
      assert j == a;
    } else {
      var b' := b[..|b| - 1];
      RouteLengthJoin(table, stops, arc, a, b');
      assert j[..|j| - 1] == a + b'[1..];
      assert j[|j| - 1] == b[|b| - 1];
      assert j[|j| - 2] == b[|b| - 2];
    }
  }

  /**
   * A linear route is driven out and back: its stored length is the outbound length plus the
   * length of the reversed route, each leg resolved in its own direction.
   */
  lemma ExpandedLength(table: map<DistanceKey, int>, stops: seq<Stop>, arc: (Coordinates, Coordinates) -> int,
                       s: seq<Handle>)
    requires |s| >= 1 && InArena(s, stops)
    ensures InArena(Expanded(s), stops) && InArena(Reverse(s), stops)
    ensures RouteLength(table, stops, arc, Expanded(s))
            == RouteLength(table, stops, arc, s) + RouteLength(table, stops, arc, Reverse(s))
  {
    var n := |s|;
    var r := Reverse(s);
    forall i | 0 <= i < n ensures r[i] == s[n - 1 - i] { ReverseAt(s, i); }
    var back := Reverse(s[..n - 1]);
    forall i | 0 <= i < n - 1 ensures back[i] == s[n - 2 - i] { ReverseAt(s[..n - 1], i); }
    assert r[1..] == back;
    RouteLengthJoin(table, stops, arc, s, r);
  }

  /**
   * The length of a route depends on the stops only through their coordinates: changing the
   * bus sets of stops leaves every route length as it was.
   */
  lemma {:induction false} RouteLengthSameCoordinates(table: map<DistanceKey, int>, s1: seq<Stop>, s2: seq<Stop>,
                                                      arc: (Coordinates, Coordinates) -> int, route: seq<Handle>)
    requires |s1| <= |s2| && InArena(route, s1)
    requires forall h :: 0 <= h < |s1| ==> s1[h].coordinates == s2[h].coordinates
    ensures RouteLength(table, s1, arc, route) == RouteLength(table, s2, arc, route)
    decreases |route|
  {
    if |route| >= 2 {
      RouteLengthSameCoordinates(table, s1, s2, arc, route[..|route| - 1]);
    }
  }
}
