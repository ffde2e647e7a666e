/**
 * `TransportCatalogue` (transport_catalogue.h, transport_catalogue.cpp): the registry of stops
 * and buses, the directed distance table and the sorted list of bus names.
 *
 * The deques `stops_data_` and `buses_data_` are append-only arenas (`stops`, `buses`); the
 * name maps `stops_container_` and `buses_container_` map a name to an index into them.
 */
module Catalogue {
  import opened Wrappers
  import opened Geo
  import opened Names
  import opened Domain
  import opened Routes

  /** A name map lookup that yields nothing for a missing name (the null pointer of `FindStop`/`FindBus`). */
  function Lookup(index: map<string, Handle>, name: string): Option<Handle> {
    if name in index then Some(index[name]) else None
  }

  /** `std::transform` of `AddBus`: each stop name to the record the name map points at. */
  function Resolve(index: map<string, Handle>, names: seq<string>): (r: seq<Handle>)
    requires forall n :: n in names ==> n in index
    ensures |r| == |names|
  {
    seq(|names|, i requires 0 <= i < |names| => index[names[i]])
  }

  /**
   * The record `AddBus` leaves behind for a new bus whose stop names resolved to `route`:
   * without stops it keeps the defaults (not even the ring flag is set); otherwise it holds
   * the stored route, the distinct-stop count of the input and the road length of the stored
   * route.
   */
  function NewBus(name: string, route: seq<Handle>, isRing: bool, table: map<DistanceKey, int>,
                  stops: seq<Stop>, arc: (Coordinates, Coordinates) -> int): Bus
    requires isRing || |route| != 1
    requires InArena(route, stops)
  {
    if |route| == 0 then Bus(name, [], 0, 0, false)
    else
      var stored := StoredRoute(route, isRing);
      StoredInArena(route, isRing, stops);
      Bus(name, stored, |Elements(route)|, RouteLength(table, stops, arc, stored), isRing)
  }

  /** The stored route visits exactly the stops of the input, so it stays inside the arena. */
  lemma StoredInArena(route: seq<Handle>, isRing: bool, stops: seq<Stop>)
    requires |route| >= 1 && (isRing || |route| != 1)
    requires InArena(route, stops)
    ensures Elements(StoredRoute(route, isRing)) == Elements(route)
    ensures InArena(StoredRoute(route, isRing), stops)
  {
    if !isRing {
      ExpandedElements(route);
      var e := Expanded(route);
      forall i | 0 <= i < |e| ensures e[i] < |stops| {
        assert e[i] in Elements(route);
      }
    }
  }

  /**
   * The shape of a new bus record. Without stops it keeps every default. Otherwise it counts
   * the distinct stops of the input (at least one, at most one per entry) and visits exactly
   * those stops; a ring stores the input unchanged with the ring flag set, and a linear route
   * of n stops is stored as the 2n - 1 stops out and back, a palindrome from the first stop
   * to the first stop. In every case the recorded distance is the road length of the stored
   * route.
   */
  lemma NewBusShape(name: string, route: seq<Handle>, isRing: bool, table: map<DistanceKey, int>,
                    stops: seq<Stop>, arc: (Coordinates, Coordinates) -> int)
    requires isRing || |route| != 1
    requires InArena(route, stops)
    ensures var bus := NewBus(name, route, isRing, table, stops, arc);
      && bus.name == name
      && InArena(bus.stops, stops)
      && bus.distance == RouteLength(table, stops, arc, bus.stops)
      && (|route| == 0 ==> bus.stops == [] && bus.uniqueStops == 0 && bus.distance == 0 && !bus.isRing)
      && (|route| >= 1 ==>
            && bus.uniqueStops == |Elements(route)|
            && 1 <= bus.uniqueStops <= |route|
            && Elements(bus.stops) == Elements(route)
            && bus.isRing == isRing)
      && (|route| >= 1 && isRing ==> bus.stops == route)
      && (|route| >= 2 && !isRing ==>
            && |bus.stops| == 2 * |route| - 1
            && bus.stops[..|route|] == route
            && bus.stops[0] == bus.stops[|bus.stops| - 1] == route[0]
            && forall i :: 0 <= i < |bus.stops| ==> bus.stops[i] == bus.stops[|bus.stops| - 1 - i])
  {
    if |route| >= 1 {
      ElementsBounds(route);
      StoredInArena(route, isRing, stops);
      if !isRing {
        ExpandedShape(route);
      }
    }
  }

  /** The stops after `AddBus` has put `name` into the bus set of every stop of `route`. */
  function Marked(stops: seq<Stop>, route: seq<Handle>, name: string): (r: seq<Stop>)
    ensures |r| == |stops|
    ensures forall h :: 0 <= h < |r| ==>
      r[h].name == stops[h].name && r[h].coordinates == stops[h].coordinates
    ensures forall h :: 0 <= h < |r| ==> (name in r[h].buses <==> name in stops[h].buses || h in route)
  {
    seq(|stops|, h requires 0 <= h < |stops| =>
      stops[h].(buses := stops[h].buses + (if h in route then {name} else {})))
  }

  /**
   * The loop of `AddBus` that inserts the bus name into the bus set of every stop the input
   * names (transport_catalogue.cpp:22-25).
   */
  method MarkStops(stops: seq<Stop>, stopIndex: map<string, Handle>, name: string, stopNames: seq<string>)
    returns (r: seq<Stop>)
    requires StopIndexOk(stops, stopIndex)
    requires forall n :: n in stopNames ==> n in stopIndex
    ensures r == Marked(stops, Resolve(stopIndex, stopNames), name)
  {
    r := stops;
    var k := 0;
    assert Resolve(stopIndex, stopNames[..0]) == [];
    assert forall h :: 0 <= h < |stops| ==> stops[h].buses + {} == stops[h].buses;
    assert Marked(stops, [], name) == stops;
    while k < |stopNames|
      invariant 0 <= k <= |stopNames|
      invariant forall n :: n in stopNames[..k] ==> n in stopIndex
      invariant r == Marked(stops, Resolve(stopIndex, stopNames[..k]), name)
    {
      var h := stopIndex[stopNames[k]];
      assert stopNames[..k + 1] == stopNames[..k] + [stopNames[k]];
      assert Resolve(stopIndex, stopNames[..k + 1]) == Resolve(stopIndex, stopNames[..k]) + [h];
      r := r[h := r[h].(buses := r[h].buses + {name})];
      k := k + 1;
    }
    assert stopNames[..k] == stopNames;
  }

  /**
   * The record-building part of `AddBus` (transport_catalogue.cpp:32-60): the distinct-stop
   * count, the stored route (expanded unless a ring) and the road length of the stored route,
   * all on the stops as they are once the bus name has been put into their bus sets. The
   * length stands for the `ComputeRouteDistance(name)` call at :60: both are `RouteLength` of
   * the stored route.
   */
  method BuildBus(name: string, route: seq<Handle>, isRing: bool, table: map<DistanceKey, int>,
                  stops: seq<Stop>, arc: (Coordinates, Coordinates) -> int) returns (bus: Bus)
    requires isRing || |route| != 1
    requires InArena(route, stops)
    ensures bus == NewBus(name, route, isRing, table, stops, arc)
    ensures bus.name == name && Elements(bus.stops) == Elements(route) && InArena(bus.stops, stops)
  {
    if |route| == 0 {
      return Bus(name, [], 0, 0, false);
    }
    var unique := CountUnique(route);
    var stored := route;
    if !isRing {
      stored := ExpandLinear(route);
    }
    StoredInArena(route, isRing, stops);
    var distance := SumDistances(table, stops, arc, stored);
    bus := Bus(name, stored, unique, distance, isRing);
  }

  /** The stop map points at a record of that name, and at the newest one. */
  ghost predicate StopIndexOk(stops: seq<Stop>, stopIndex: map<string, Handle>) {
    && (forall n :: n in stopIndex ==> stopIndex[n] < |stops| && stops[stopIndex[n]].name == n)
    && (forall h :: 0 <= h < |stops| ==> stops[h].name in stopIndex && h <= stopIndex[stops[h].name])
  }

  /** Bus names are unique: the map, the arena and the sorted name list describe the same buses. */
  ghost predicate BusIndexOk(buses: seq<Bus>, busIndex: map<string, Handle>, busNames: seq<string>) {
    && (forall n :: n in busIndex ==> busIndex[n] < |buses| && buses[busIndex[n]].name == n)
    && (forall b :: 0 <= b < |buses| ==> buses[b].name in busIndex && busIndex[buses[b].name] == b)
    && StrictlySorted(busNames)
    && (forall n :: n in busNames <==> n in busIndex)
    && |busNames| == |buses|
  }

  ghost predicate RoutesOk(buses: seq<Bus>, stops: seq<Stop>) {
    forall b :: 0 <= b < |buses| ==> InArena(buses[b].stops, stops)
  }

  /** The bus set of a stop holds exactly the names of the buses whose route calls at it. */
  ghost predicate ServedOk(stops: seq<Stop>, buses: seq<Bus>, busIndex: map<string, Handle>)
    requires forall n :: n in busIndex ==> busIndex[n] < |buses|
  {
    && (forall h, n :: 0 <= h < |stops| && n in stops[h].buses ==>
          n in busIndex && h in buses[busIndex[n]].stops)
    && (forall b, i :: 0 <= b < |buses| && 0 <= i < |buses[b].stops| && buses[b].stops[i] < |stops| ==>
          buses[b].name in stops[buses[b].stops[i]].buses)
  }

  /** The catalogue's invariant on the arenas, the name maps and the sorted name list. */
  ghost predicate Inv(stops: seq<Stop>, buses: seq<Bus>, stopIndex: map<string, Handle>,
                      busIndex: map<string, Handle>, busNames: seq<string>) {
    && StopIndexOk(stops, stopIndex) && BusIndexOk(buses, busIndex, busNames)
    && RoutesOk(buses, stops) && ServedOk(stops, buses, busIndex)
  }

  /** Appending a stop without buses and pointing its name at it keeps the invariant. */
  lemma AddStopKeepsInvariant(stops: seq<Stop>, buses: seq<Bus>, stopIndex: map<string, Handle>,
                              busIndex: map<string, Handle>, busNames: seq<string>, stop: Stop)
    requires Inv(stops, buses, stopIndex, busIndex, busNames) && stop.buses == {}
    ensures Inv(stops + [stop], buses, stopIndex[stop.name := |stops|], busIndex, busNames)
  {
    var stops1 := stops + [stop];
    assert RoutesOk(buses, stops1) by {
      forall b, i | 0 <= b < |buses| && 0 <= i < |buses[b].stops| ensures buses[b].stops[i] < |stops1| {
        assert InArena(buses[b].stops, stops);
      }
    }
  }

  /**
   * What `AddBus` does to the arenas keeps the catalogue's invariant: a fresh name, the name
   * added to exactly the bus sets of the stops the route visits, and a record whose stored
   * route visits the same stops.
   */
  lemma AddBusKeepsInvariant(stops0: seq<Stop>, buses0: seq<Bus>, stopIndex: map<string, Handle>,
                             busIndex0: map<string, Handle>, busNames0: seq<string>,
                             name: string, route: seq<Handle>, stops1: seq<Stop>, busNames1: seq<string>, bus: Bus)
    requires Inv(stops0, buses0, stopIndex, busIndex0, busNames0)
    requires name !in busIndex0 && InArena(route, stops0)
    requires stops1 == Marked(stops0, route, name)
    requires StrictlySorted(busNames1) && |busNames1| == |busNames0| + 1
    requires forall n :: n in busNames1 <==> n == name || n in busNames0
    requires bus.name == name && Elements(bus.stops) == Elements(route)
    ensures Inv(stops1, buses0 + [bus], stopIndex, busIndex0[name := |buses0|], busNames1)
  {
    var buses1 := buses0 + [bus];
    var busIndex1 := busIndex0[name := |buses0|];
    assert InArena(bus.stops, stops1) by {
      forall i | 0 <= i < |bus.stops| ensures bus.stops[i] < |stops1| {
        assert bus.stops[i] in Elements(route);
      }
    }
    forall h, n | 0 <= h < |stops1| && n in stops1[h].buses
      ensures n in busIndex1 && h in buses1[busIndex1[n]].stops
    {
      if n != name {
        assert n in stops0[h].buses;
      } else {
        assert h in Elements(route);
      }
    }
    forall b, i | 0 <= b < |buses1| && 0 <= i < |buses1[b].stops| && buses1[b].stops[i] < |stops1|
      ensures buses1[b].name in stops1[buses1[b].stops[i]].buses
    {
      if b == |buses0| {
        assert bus.stops[i] in Elements(route);
      }
    }
  }

  /**
   * The rest of `AddBus` once the name is known to be new and `pos` is its lower bound in the
   * sorted name list (transport_catalogue.cpp:19-60): the name goes into the list, every stop
   * the input names gets the bus in its bus set, and the record `BuildBus` computes on those
   * stops is appended and registered. The result keeps the catalogue's invariant.
   */
  method RegisterBus(stops: seq<Stop>, buses: seq<Bus>, stopIndex: map<string, Handle>,
                     busIndex: map<string, Handle>, busNames: seq<string>, table: map<DistanceKey, int>,
                     arc: (Coordinates, Coordinates) -> int, name: string, pos: nat, stopNames: seq<string>,
                     isRing: bool)
    returns (stops1: seq<Stop>, buses1: seq<Bus>, busIndex1: map<string, Handle>, busNames1: seq<string>)
    requires Inv(stops, buses, stopIndex, busIndex, busNames) && name !in busIndex
    requires pos <= |busNames|
    requires forall i :: 0 <= i < pos ==> Less(busNames[i], name)
    requires forall i :: pos <= i < |busNames| ==> !Less(busNames[i], name)
    requires forall n :: n in stopNames ==> n in stopIndex
    requires isRing || |stopNames| != 1
    ensures Inv(stops1, buses1, stopIndex, busIndex1, busNames1)
    ensures var route := Resolve(stopIndex, stopNames);
      && busIndex1 == busIndex[name := |buses|]
      && busNames1 == InsertAt(busNames, pos, name)
      && stops1 == Marked(stops, route, name)
      && InArena(route, stops1)
      && buses1 == buses + [NewBus(name, route, isRing, table, stops1, arc)]
    ensures Registry(stops1, buses1, busIndex1, busNames1)
      == AfterAddBus(Registry(stops, buses, busIndex, busNames), stopIndex, table, arc, name, stopNames, isRing)
  {
    InsertKeepsSorted(busNames, pos, name);
    InsertedAtLowerBound(busNames, pos, name);
    var route := Resolve(stopIndex, stopNames);
    stops1 := MarkStops(stops, stopIndex, name, stopNames);
    assert InArena(route, stops);
    var bus := BuildBus(name, route, isRing, table, stops1, arc);
    AddBusKeepsInvariant(stops, buses, stopIndex, busIndex, busNames, name, route, stops1,
                         InsertAt(busNames, pos, name), bus);
    buses1, busIndex1, busNames1 := buses + [bus], busIndex[name := |buses|], InsertAt(busNames, pos, name);
  }

  /**
   * What `AddBus` demands of a new bus: every stop name has been added, and a linear route
   * does not have exactly one stop. A registered name returns before either matters.
   */
  predicate Buildable(stopIndex: map<string, Handle>, stopNames: seq<string>, isRing: bool) {
    (forall n :: n in stopNames ==> n in stopIndex) && (isRing || |stopNames| != 1)
  }

  /** Every entry of the stop map points into an arena of `size` records. */
  predicate PointsInto(stopIndex: map<string, Handle>, size: nat) {
    forall n :: n in stopIndex ==> stopIndex[n] < size
  }

  /** The part of the catalogue `AddBus` changes: the two arenas, the bus map and the sorted name list. */
  datatype Registry = Registry(stops: seq<Stop>, buses: seq<Bus>, busIndex: map<string, Handle>, busNames: seq<string>)

  /**
   * The `AddBus` transition: a registered name leaves everything as it was; a new name is
   * inserted into the sorted list, put into the bus set of every stop the input names, and
   * registered with the record `NewBus` describes on the marked stops.
   */
  function AfterAddBus(reg: Registry, stopIndex: map<string, Handle>, table: map<DistanceKey, int>,
                       arc: (Coordinates, Coordinates) -> int, name: string, stopNames: seq<string>,
                       isRing: bool): (r: Registry)
    requires PointsInto(stopIndex, |reg.stops|)
    requires name !in reg.busIndex ==> Buildable(stopIndex, stopNames, isRing)
    ensures |r.stops| == |reg.stops|
    ensures forall n :: n in r.busIndex <==> n in reg.busIndex || n == name
    ensures name in reg.busIndex ==> r == reg
  {
    if name in reg.busIndex then reg
    else
      var route := Resolve(stopIndex, stopNames);
      var stops1 := Marked(reg.stops, route, name);
      Registry(stops1, reg.buses + [NewBus(name, route, isRing, table, stops1, arc)],
               reg.busIndex[name := |reg.buses|], Inserted(reg.busNames, name))
  }

  /** A bus record depends on the stops only through their coordinates. */
  lemma NewBusSameCoordinates(name: string, route: seq<Handle>, isRing: bool, table: map<DistanceKey, int>,
                              s1: seq<Stop>, s2: seq<Stop>, arc: (Coordinates, Coordinates) -> int)
    requires isRing || |route| != 1
    requires InArena(route, s1) && |s1| == |s2|
    requires forall h :: 0 <= h < |s1| ==> s1[h].coordinates == s2[h].coordinates
    ensures InArena(route, s2)
    ensures NewBus(name, route, isRing, table, s1, arc) == NewBus(name, route, isRing, table, s2, arc)
  {
    if |route| > 0 {
      StoredInArena(route, isRing, s1);
      RouteLengthSameCoordinates(table, s1, s2, arc, StoredRoute(route, isRing));
    }
  }

  /**
   * The steps of `AddBus` on the registry: look the name up with `lower_bound` and return if it
   * is there (transport_catalogue.cpp:15-18), otherwise register it.
   */
  method AddBusTo(reg: Registry, stopIndex: map<string, Handle>, table: map<DistanceKey, int>,
                  arc: (Coordinates, Coordinates) -> int, name: string, stopNames: seq<string>, isRing: bool)
    returns (r: Registry)
    requires Inv(reg.stops, reg.buses, stopIndex, reg.busIndex, reg.busNames)
    requires name !in reg.busIndex ==> Buildable(stopIndex, stopNames, isRing)
    ensures Inv(r.stops, r.buses, stopIndex, r.busIndex, r.busNames)
    ensures r == AfterAddBus(reg, stopIndex, table, arc, name, stopNames, isRing)
  {
    var pos := LowerBound(reg.busNames, name);
    LowerBoundFinds(reg.busNames, name, pos);
    if pos < |reg.busNames| && reg.busNames[pos] == name {
      return reg;
    }
    var stops1, buses1, busIndex1, busNames1 :=
      RegisterBus(reg.stops, reg.buses, stopIndex, reg.busIndex, reg.busNames, table, arc, name, pos, stopNames, isRing);
    r := Registry(stops1, buses1, busIndex1, busNames1);
  }

  /** Changing only bus sets of stops leaves the road length of every bus as it was. */
  lemma SameLengths(table: map<DistanceKey, int>, stops0: seq<Stop>, stops1: seq<Stop>,
                    arc: (Coordinates, Coordinates) -> int, buses: seq<Bus>)
    requires RoutesOk(buses, stops0) && |stops0| == |stops1|
    requires forall h :: 0 <= h < |stops0| ==> stops0[h].coordinates == stops1[h].coordinates
    ensures RoutesOk(buses, stops1)
    ensures forall b :: 0 <= b < |buses| ==>
      RouteLength(table, stops1, arc, buses[b].stops) == RouteLength(table, stops0, arc, buses[b].stops)
  {
    forall b | 0 <= b < |buses|
      ensures RouteLength(table, stops1, arc, buses[b].stops) == RouteLength(table, stops0, arc, buses[b].stops)
    {
      RouteLengthSameCoordinates(table, stops0, stops1, arc, buses[b].stops);
    }
  }

  /** Every bus from index `from` on records the road length of its route under `table` and `stops`. */
  ghost predicate LengthsFrom(table: map<DistanceKey, int>, stops: seq<Stop>, arc: (Coordinates, Coordinates) -> int,
                              buses: seq<Bus>, from: nat) {
    forall b :: from <= b < |buses| ==>
      InArena(buses[b].stops, stops) && buses[b].distance == RouteLength(table, stops, arc, buses[b].stops)
  }

  /**
   * `AddBus` never invalidates a recorded length: it leaves coordinates alone, and the record it
   * appends is measured on the table and stops it leaves behind.
   */
  lemma AddBusKeepsLengths(table: map<DistanceKey, int>, arc: (Coordinates, Coordinates) -> int,
                           stops0: seq<Stop>, buses0: seq<Bus>, stops1: seq<Stop>, buses1: seq<Bus>,
                           name: string, route: seq<Handle>, isRing: bool, from: nat)
    requires LengthsFrom(table, stops0, arc, buses0, from)
    requires isRing || |route| != 1
    requires InArena(route, stops0)
    requires stops1 == Marked(stops0, route, name)
    requires buses1 == buses0 + [NewBus(name, route, isRing, table, stops1, arc)]
    ensures LengthsFrom(table, stops1, arc, buses1, from)
  {
    NewBusShape(name, route, isRing, table, stops1, arc);
    forall b | from <= b < |buses0|
      ensures InArena(buses0[b].stops, stops1)
      ensures buses0[b].distance == RouteLength(table, stops1, arc, buses0[b].stops)
    {
      RouteLengthSameCoordinates(table, stops0, stops1, arc, buses0[b].stops);
    }
  }

  class TransportCatalogue {
    /** The truncated great-circle formula of geo.h for two distinct points. */
    const arc: (Coordinates, Coordinates) -> int

    /** `distances_`: the directed distance table. */
    var distances: map<DistanceKey, int>
    /** `stops_data_` */
    var stops: seq<Stop>
    /** `buses_data_` */
    var buses: seq<Bus>
    /** `stops_container_` */
    var stopIndex: map<string, Handle>
    /** `buses_container_` */
    var busIndex: map<string, Handle>
    /** `buses_`: the bus names in sorted order. */
    var busNames: seq<string>
    /** `vertex_count_`: no code of this model writes it. */
    var vertexCount: nat

    ghost predicate Valid()
      reads this
    {
      && Inv(stops, buses, stopIndex, busIndex, busNames)
      && vertexCount == 0
    }

    /** The fields `AddBus` changes, as one value. */
    function State(): Registry
      reads this
    {
      Registry(stops, buses, busIndex, busNames)
    }

    constructor (arc: (Coordinates, Coordinates) -> int)
      ensures Valid() && this.arc == arc
      ensures distances == map[] && stops == [] && buses == []
      ensures stopIndex == map[] && busIndex == map[] && busNames == []
    {
      this.arc := arc;
      distances := map[];
      stops := [];
      buses := [];
      stopIndex := map[];
      busIndex := map[];
      busNames := [];
      vertexCount := 0;
    }

    /**
     * `AddStop`: append a record with no buses and point the name at it; a name added before
     * now resolves to the new record, and the old record stays in the arena.
     */
    method AddStop(name: string, coordinates: Coordinates)
      requires Valid()
      modifies this
      ensures Valid()
      ensures stops == old(stops) + [Stop(name, coordinates, {})]
      ensures stopIndex == old(stopIndex)[name := |old(stops)|]
      ensures buses == old(buses) && busIndex == old(busIndex) && busNames == old(busNames)
      ensures distances == old(distances)
    {
      AddStopKeepsInvariant(stops, buses, stopIndex, busIndex, busNames, Stop(name, coordinates, {}));
      stops, stopIndex := stops + [Stop(name, coordinates, {})], stopIndex[name := |stops|];
    }

    /**
     * `FindStop` / `GetStopInfo`: the newest stop record with that name, or nothing exactly
     * when no stop of that name was ever added.
     */
    function FindStop(name: string): (r: Option<Handle>)
      reads this
      requires Valid()
      ensures r.None? <==> forall h :: 0 <= h < |stops| ==> stops[h].name != name
      ensures r.Some? ==> r.value < |stops| && stops[r.value].name == name
      ensures r.Some? ==> forall h :: r.value < h < |stops| ==> stops[h].name != name
    {
      Lookup(stopIndex, name)
    }

    function GetStopInfo(name: string): (r: Option<Handle>)
      reads this
      requires Valid()
      ensures r == FindStop(name)
    {
      FindStop(name)
    }

    /** `FindBus` / `GetBusInfo`: the bus record with that name, or nothing exactly when no bus of that name was added. */
    function FindBus(name: string): (r: Option<Handle>)
      reads this
      requires Valid()
      ensures r.None? <==> forall b :: 0 <= b < |buses| ==> buses[b].name != name
      ensures r.Some? ==> r.value < |buses| && buses[r.value].name == name
    {
      Lookup(busIndex, name)
    }

    function GetBusInfo(name: string): (r: Option<Handle>)
      reads this
      requires Valid()
      ensures r == FindBus(name)
    {
      FindBus(name)
    }

    /**
     * `AddDistance`: store the meters under the ordered pair of stop pointers; only that one
     * entry changes. A name never added contributes a null pointer.
     */
    method AddDistance(lhs: string, rhs: string, meters: int)
      requires Valid()
      modifies this
      ensures Valid()
      ensures distances == old(distances)[(FindStop(lhs), FindStop(rhs)) := meters]
      ensures stops == old(stops) && stopIndex == old(stopIndex)
      ensures buses == old(buses) && busIndex == old(busIndex) && busNames == old(busNames)
    {
      var l := FindStop(lhs);
      var r := FindStop(rhs);
      distances := distances[(l, r) := meters];
    }

    /**
     * `GetDistance`: the entry stored for (a, b) if there is one, otherwise the entry stored for
     * (b, a), otherwise the geodesic distance, which is 0 for EPSILON-equal points. When at most
     * one direction has an entry of its own, the answer is the same both ways (for a symmetric
     * geodesic formula).
     */
    function GetDistance(a: Handle, b: Handle): (r: int)
      reads this
      requires a < |stops| && b < |stops|
      ensures (Some(a), Some(b)) in distances ==> r == distances[(Some(a), Some(b))]
      ensures (Some(a), Some(b)) !in distances && (Some(b), Some(a)) in distances ==>
        r == distances[(Some(b), Some(a))]
      ensures (Some(a), Some(b)) !in distances && (Some(b), Some(a)) !in distances ==>
        r == GeoDistance(arc, stops[a].coordinates, stops[b].coordinates)
      ensures (Some(a), Some(b)) !in distances && (Some(b), Some(a)) !in distances ==>
        SamePoint(stops[a].coordinates, stops[b].coordinates) ==> r == 0
      ensures (Some(a), Some(b)) !in distances || (Some(b), Some(a)) !in distances ==>
        arc(stops[a].coordinates, stops[b].coordinates) == arc(stops[b].coordinates, stops[a].coordinates) ==>
        r == Distance(distances, stops, arc, b, a)
    {
      SamePointSymmetric(stops[a].coordinates, stops[b].coordinates);
      Distance(distances, stops, arc, a, b)
    }

    /** `ComputeRouteDistance`: add up `GetDistance` over consecutive stops of the bus's stored route. */
    method ComputeRouteDistance(name: string) returns (distance: int)
      requires name in busIndex && busIndex[name] < |buses|
      requires InArena(buses[busIndex[name]].stops, stops)
      ensures distance == RouteLength(distances, stops, arc, buses[busIndex[name]].stops)
    {
      distance := SumDistances(distances, stops, arc, buses[busIndex[name]].stops);
    }

    /**
     * `AddBus`. A name already registered changes nothing. Otherwise the name goes into the
     * sorted list at its lower-bound position, every stop named by the input gets the bus in
     * its bus set, and the arena receives the record `NewBus` describes.
     */
    method AddBus(name: string, stopNames: seq<string>, isRing: bool)
      requires Valid()
      requires name !in busIndex ==> Buildable(stopIndex, stopNames, isRing)
      modifies this
      ensures Valid()
      ensures State() == AfterAddBus(old(State()), old(stopIndex), old(distances), arc, name, stopNames, isRing)
      ensures distances == old(distances) && stopIndex == old(stopIndex)
      ensures name in old(busIndex) ==>
        stops == old(stops) && buses == old(buses) && busIndex == old(busIndex) && busNames == old(busNames)
      ensures name !in old(busIndex) ==>
        var route := Resolve(old(stopIndex), stopNames);
        && busIndex == old(busIndex)[name := |old(buses)|]
        && (forall n :: n in busNames <==> n == name || n in old(busNames))
        && stops == Marked(old(stops), route, name)
        && InArena(route, stops)
        && buses == old(buses) + [NewBus(name, route, isRing, distances, stops, arc)]
    {
      var r := AddBusTo(State(), stopIndex, distances, arc, name, stopNames, isRing);
      stops, buses, busIndex, busNames := r.stops, r.buses, r.busIndex, r.busNames;
    }

    /** `size()`: the number of registered buses. */
    function Size(): (r: nat)
      reads this
      requires Valid()
      ensures r == |buses|
    {
      |busNames|
    }

    /** `empty()`: no bus is registered. */
    function Empty(): (r: bool)
      reads this
      requires Valid()
      ensures r <==> buses == []
    {
      |busNames| == 0
    }

    /**
     * `begin()`/`end()`: iteration walks the bus names in sorted order, each registered bus
     * exactly once.
     */
    function BusNames(): (r: seq<string>)
      reads this
      requires Valid()
      ensures StrictlySorted(r)
      ensures forall n :: n in r <==> FindBus(n).Some?
    {
      busNames
    }

    /** `GetVertexCount()`: the counter starts at 0 and nothing shown here changes it. */
    function GetVertexCount(): (r: nat)
      reads this
      requires Valid()
      ensures r == 0
    {
      vertexCount
    }
  }
}
