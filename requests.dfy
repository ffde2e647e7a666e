/**
 * `RequestInterface` (request_handler.h, request_handler.cpp): the input records a reader has
 * parsed, fed to the catalogue in a fixed order, and the stat requests answered against it.
 *
 * Reading and parsing the document, building the routing graph and printing the answers are
 * the reader's own (pure virtual) steps; the containers they fill are given to the
 * constructor here.
 */
module Requests {
  import opened Wrappers
  import opened Geo
  import opened Domain
  import opened Routes
  import opened Catalogue

  /** `StopInput` */
  datatype StopInput = StopInput(name: string, coordinates: Coordinates)

  /** `BusInput` */
  datatype BusInput = BusInput(name: string, stops: seq<string>, isRing: bool)

  /** `Stat`: `kind` is the request's `type` string. */
  datatype Stat = Stat(id: int, kind: string, name: string, from: string, to: string)

  /**
   * An element of `answers_`: the bare request id when the name is unknown, or one of the four
   * output records. `MapOutput` also carries a pointer to the interface's own catalogue, which
   * is the same object for every answer and is not repeated here.
   */
  datatype Answer =
    | NotFound(id: int)
    | StopOutput(id: int, stop: Handle)
    | BusOutput(id: int, bus: Handle)
    | MapOutput(id: int)
    | RouteOutput(id: int, from: Handle, to: Handle)

  /** One `(lhs, rhs, meters)` entry of `distances_`. */
  type Triple = (string, string, int)

  /** The records `AddStops` appends: one per input, in input order, each without buses. */
  function StopRecords(inputs: seq<StopInput>): seq<Stop> {
    seq(|inputs|, i requires 0 <= i < |inputs| => Stop(inputs[i].name, inputs[i].coordinates, {}))
  }

  /** The stop map after `AddStops`: each input, in order, repoints its name at its own record. */
  function Pointed(index: map<string, Handle>, base: nat, inputs: seq<StopInput>): map<string, Handle>
    decreases |inputs|
  {
    if inputs == [] then index
    else Pointed(index, base, inputs[..|inputs| - 1])[inputs[|inputs| - 1].name := base + |inputs| - 1]
  }

  /**
   * After `AddStops` a name resolves exactly when it was known before or is among the inputs;
   * an input name resolves to the record of its last occurrence, any other name as before.
   */
  lemma {:induction false} PointedNewest(index: map<string, Handle>, base: nat, inputs: seq<StopInput>, n: string)
    ensures var r := Pointed(index, base, inputs);
      && (n in r <==> n in index || exists i :: 0 <= i < |inputs| && inputs[i].name == n)
      && ((exists i :: 0 <= i < |inputs| && inputs[i].name == n) ==>
            && base <= r[n] < base + |inputs|
            && inputs[r[n] - base].name == n
            && forall j :: r[n] - base < j < |inputs| ==> inputs[j].name != n)
      && ((forall i :: 0 <= i < |inputs| ==> inputs[i].name != n) && n in index ==> r[n] == index[n])
    decreases |inputs|
  {
    if inputs != [] {
      var front := inputs[..|inputs| - 1];
      PointedNewest(index, base, front, n);
      if inputs[|inputs| - 1].name != n {
        if exists i :: 0 <= i < |inputs| && inputs[i].name == n {
          var i :| 0 <= i < |inputs| && inputs[i].name == n;
          assert front[i].name == n;
        }
        forall i | 0 <= i < |front| && front[i].name == n ensures exists k :: 0 <= k < |inputs| && inputs[k].name == n {
          assert inputs[i].name == n;
        }
      }
    }
  }

  /** After `AddStops` every name known before and every input name resolves. */
  lemma PointedCovers(index: map<string, Handle>, base: nat, inputs: seq<StopInput>)
    ensures forall n :: n in index ==> n in Pointed(index, base, inputs)
    ensures forall j :: 0 <= j < |inputs| ==> inputs[j].name in Pointed(index, base, inputs)
  {
    forall n | n in index ensures n in Pointed(index, base, inputs) {
      PointedNewest(index, base, inputs, n);
    }
    forall j | 0 <= j < |inputs| ensures inputs[j].name in Pointed(index, base, inputs) {
      PointedNewest(index, base, inputs, inputs[j].name);
    }
  }

  /** The distance entries in the order `AddDistances` walks them: row by row, entry by entry. */
  function Triples(rows: seq<(string, seq<(string, int)>)>): seq<Triple>
    decreases |rows|
  {
    if rows == [] then []
    else Triples(rows[..|rows| - 1]) + Row(rows[|rows| - 1].0, rows[|rows| - 1].1)
  }

  function Row(lhs: string, entries: seq<(string, int)>): seq<Triple> {
    seq(|entries|, i requires 0 <= i < |entries| => (lhs, entries[i].0, entries[i].1))
  }

  /** The key `AddDistance` stores a triple under: the records the two names resolve to. */
  function KeyOf(stopIndex: map<string, Handle>, t: Triple): DistanceKey {
    (Lookup(stopIndex, t.0), Lookup(stopIndex, t.1))
  }

  /** The distance table after forwarding the triples, in order, to `AddDistance`. */
  function Forwarded(table: map<DistanceKey, int>, stopIndex: map<string, Handle>, ts: seq<Triple>): map<DistanceKey, int>
    decreases |ts|
  {
    if ts == [] then table
    else Forwarded(table, stopIndex, ts[..|ts| - 1])[KeyOf(stopIndex, ts[|ts| - 1]) := ts[|ts| - 1].2]
  }

  /** Forwarding two lists one after the other is forwarding their concatenation. */
  lemma {:induction false} ForwardedAppend(table: map<DistanceKey, int>, stopIndex: map<string, Handle>,
                                           ts: seq<Triple>, us: seq<Triple>)
    ensures Forwarded(Forwarded(table, stopIndex, ts), stopIndex, us) == Forwarded(table, stopIndex, ts + us)
    decreases |us|
  {
    if us == [] {
      assert ts + us == ts;
    } else {
      ForwardedAppend(table, stopIndex, ts, us[..|us| - 1]);
      assert (ts + us)[..|ts + us| - 1] == ts + us[..|us| - 1];
    }
  }

  /** Every forwarded triple is stored, and a later triple for the same key overwrites an earlier one. */
  lemma {:induction false} ForwardedLastWins(table: map<DistanceKey, int>, stopIndex: map<string, Handle>,
                                             ts: seq<Triple>, i: nat)
    requires i < |ts|
    requires forall j :: i < j < |ts| ==> KeyOf(stopIndex, ts[j]) != KeyOf(stopIndex, ts[i])
    ensures KeyOf(stopIndex, ts[i]) in Forwarded(table, stopIndex, ts)
    ensures Forwarded(table, stopIndex, ts)[KeyOf(stopIndex, ts[i])] == ts[i].2
    decreases |ts|
  {
    if i < |ts| - 1 {
      ForwardedLastWins(table, stopIndex, ts[..|ts| - 1], i);
    }
  }

  /** A key no triple resolves to keeps its entry, or its absence. */
  lemma {:induction false} ForwardedUntouched(table: map<DistanceKey, int>, stopIndex: map<string, Handle>,
                                              ts: seq<Triple>, k: DistanceKey)
    requires forall j :: 0 <= j < |ts| ==> KeyOf(stopIndex, ts[j]) != k
    ensures k in Forwarded(table, stopIndex, ts) <==> k in table
    ensures k in table ==> Forwarded(table, stopIndex, ts)[k] == table[k]
    decreases |ts|
  {
    if ts != [] {
      ForwardedUntouched(table, stopIndex, ts[..|ts| - 1], k);
    }
  }

  /** The answer `GetAnswers` appends for one request, or nothing when its type is unknown and it throws. */
  function AnswerFor(stopIndex: map<string, Handle>, busIndex: map<string, Handle>, stat: Stat): Option<Answer> {
    if stat.kind == "Bus" then
      Some(match Lookup(busIndex, stat.name)
           case None => NotFound(stat.id)
           case Some(b) => BusOutput(stat.id, b))
    else if stat.kind == "Stop" then
      Some(match Lookup(stopIndex, stat.name)
           case None => NotFound(stat.id)
           case Some(h) => StopOutput(stat.id, h))
    else if stat.kind == "Map" then
      Some(MapOutput(stat.id))
    else if stat.kind == "Route" then
      var from := Lookup(stopIndex, stat.from);
      var to := Lookup(stopIndex, stat.to);
      Some(if from.None? || to.None? then NotFound(stat.id) else RouteOutput(stat.id, from.value, to.value))
    else
      None
  }

  /**
   * What the answer to one request means for a catalogue: a Bus or Stop request is not found
   * exactly when no record has that name, and otherwise carries the record of that name (for
   * a stop, the newest); a Map request is always answered; a Route request is not found exactly
   * when an endpoint is unknown; any other type throws. Every answer carries the request's id.
   */
  lemma AnswerMeaning(cat: TransportCatalogue, stat: Stat)
    requires cat.Valid()
    ensures var r := AnswerFor(cat.stopIndex, cat.busIndex, stat);
      && (r.None? <==> stat.kind != "Bus" && stat.kind != "Stop" && stat.kind != "Map" && stat.kind != "Route")
      && (r.Some? ==> r.value.id == stat.id)
      && (stat.kind == "Bus" ==>
            && (r.value.NotFound? || r.value.BusOutput?)
            && (r.value.NotFound? <==> forall b :: 0 <= b < |cat.buses| ==> cat.buses[b].name != stat.name)
            && (r.value.BusOutput? ==> r.value.bus < |cat.buses| && cat.buses[r.value.bus].name == stat.name))
      && (stat.kind == "Stop" ==>
            && (r.value.NotFound? || r.value.StopOutput?)
            && (r.value.NotFound? <==> forall h :: 0 <= h < |cat.stops| ==> cat.stops[h].name != stat.name)
            && (r.value.StopOutput? ==>
                  && r.value.stop < |cat.stops| && cat.stops[r.value.stop].name == stat.name
                  && forall h :: r.value.stop < h < |cat.stops| ==> cat.stops[h].name != stat.name))
      && (stat.kind == "Map" ==> r == Some(MapOutput(stat.id)))
      && (stat.kind == "Route" ==>
            && (r.value.NotFound? || r.value.RouteOutput?)
            && (r.value.NotFound? <==> cat.FindStop(stat.from).None? || cat.FindStop(stat.to).None?)
            && (r.value.RouteOutput? ==>
                  && r.value.from < |cat.stops| && cat.stops[r.value.from].name == stat.from
                  && r.value.to < |cat.stops| && cat.stops[r.value.to].name == stat.to))
  {
    var _ := cat.FindStop(stat.name);
    var _ := cat.FindBus(stat.name);
    var _ := cat.FindStop(stat.from);
    var _ := cat.FindStop(stat.to);
  }

  /**
   * The answers `GetAnswers` appends for a list of requests, and whether it threw: requests are
   * answered in order until the first one of unknown type.
   */
  function Answers(stopIndex: map<string, Handle>, busIndex: map<string, Handle>, stats: seq<Stat>): (seq<Answer>, bool)
    decreases |stats|
  {
    if stats == [] then ([], false)
    else
      var r := Answers(stopIndex, busIndex, stats[..|stats| - 1]);
      if r.1 then r
      else match AnswerFor(stopIndex, busIndex, stats[|stats| - 1])
        case None => (r.0, true)
        case Some(a) => (r.0 + [a], false)
  }

  /**
   * One answer per request, in request order, when every type is known; otherwise exactly the
   * answers to the requests before the first unknown one, which is where it throws.
   */
  lemma {:induction false} AnswersInOrder(stopIndex: map<string, Handle>, busIndex: map<string, Handle>, stats: seq<Stat>)
    ensures var r := Answers(stopIndex, busIndex, stats);
      && |r.0| <= |stats|
      && (forall i :: 0 <= i < |r.0| ==> AnswerFor(stopIndex, busIndex, stats[i]) == Some(r.0[i]))
      && (!r.1 <==> |r.0| == |stats|)
      && (r.1 ==> AnswerFor(stopIndex, busIndex, stats[|r.0|]).None?)
    decreases |stats|
  {
    if stats != [] {
      var front := stats[..|stats| - 1];
      AnswersInOrder(stopIndex, busIndex, front);
      var r := Answers(stopIndex, busIndex, front);
      if r.1 {
        assert stats[|r.0|] == front[|r.0|];
      }
    }
  }

  /** Once a request has thrown, later requests add nothing. */
  lemma {:induction false} AnswersStopAtThrow(stopIndex: map<string, Handle>, busIndex: map<string, Handle>,
                                              stats: seq<Stat>, n: nat)
    requires n <= |stats| && Answers(stopIndex, busIndex, stats[..n]).1
    ensures Answers(stopIndex, busIndex, stats) == Answers(stopIndex, busIndex, stats[..n])
    decreases |stats| - n
  {
    if n < |stats| {
      assert stats[..|stats| - 1][..n] == stats[..n];
      AnswersStopAtThrow(stopIndex, busIndex, stats[..|stats| - 1], n);
    } else {
      assert stats[..n] == stats;
    }
  }

  /** The names the inputs carry. */
  function InputNames(inputs: seq<BusInput>): set<string>
    decreases |inputs|
  {
    if inputs == [] then {} else InputNames(inputs[..|inputs| - 1]) + {inputs[|inputs| - 1].name}
  }

  /** A name is among the inputs' names exactly when some input carries it. */
  lemma {:induction false} InputNamesMeaning(inputs: seq<BusInput>, n: string)
    ensures n in InputNames(inputs) <==> exists i :: 0 <= i < |inputs| && inputs[i].name == n
    decreases |inputs|
  {
    if inputs != [] {
      var m := |inputs| - 1;
      InputNamesMeaning(inputs[..m], n);
      if exists i :: 0 <= i < m && inputs[..m][i].name == n {
        var i :| 0 <= i < m && inputs[..m][i].name == n;
        assert inputs[i].name == n;
      }
      if exists i :: 0 <= i < |inputs| && inputs[i].name == n {
        var i :| 0 <= i < |inputs| && inputs[i].name == n;
        if i < m {
          assert inputs[..m][i].name == n;
        }
      }
    }
  }

  /**
   * Input `i` reaches the new-name branch of `AddBus`: its name was not registered before and
   * no earlier input carries it.
   */
  predicate Fresh(busIndex: map<string, Handle>, inputs: seq<BusInput>, i: nat)
    requires i < |inputs|
  {
    inputs[i].name !in busIndex && inputs[i].name !in InputNames(inputs[..i])
  }

  /**
   * The inputs that reach the new-name branch of `AddBus`, in input order: of the names not
   * registered before, the first input of each. Each is one of the inputs, its name was not
   * registered, and no name occurs twice.
   */
  function FirstOccurrences(busIndex: map<string, Handle>, inputs: seq<BusInput>): (r: seq<BusInput>)
    ensures forall k :: 0 <= k < |r| ==> r[k] in inputs && r[k].name !in busIndex
    ensures forall k, l :: 0 <= k < l < |r| ==> r[k].name != r[l].name
    ensures forall k :: 0 <= k < |r| ==> r[k].name in InputNames(inputs)
    decreases |inputs|
  {
    if inputs == [] then []
    else
      var m := |inputs| - 1;
      var front := FirstOccurrences(busIndex, inputs[..m]);
      assert forall k :: 0 <= k < |front| ==> front[k] in inputs by {
        forall k | 0 <= k < |front| ensures front[k] in inputs {
          var i :| 0 <= i < m && inputs[..m][i] == front[k];
          assert inputs[i] == front[k];
        }
      }
      if Fresh(busIndex, inputs, m) then front + [inputs[m]] else front
  }

  /**
   * An input whose name is new and carried by no earlier input is one of the inputs that reach
   * the new-name branch, so the record registered under that name is built from it.
   */
  lemma {:induction false} FirstOccurrenceRegistered(busIndex: map<string, Handle>, inputs: seq<BusInput>, i: nat)
    requires i < |inputs| && inputs[i].name !in busIndex
    requires forall j :: 0 <= j < i ==> inputs[j].name != inputs[i].name
    ensures inputs[i] in FirstOccurrences(busIndex, inputs)
    decreases |inputs|
  {
    var m := |inputs| - 1;
    if i < m {
      FirstOccurrenceRegistered(busIndex, inputs[..m], i);
    } else {
      InputNamesMeaning(inputs[..m], inputs[m].name);
    }
  }

  /** What `AddBus` demands of every input that reaches its new-name branch. */
  predicate BusInputsOk(stopIndex: map<string, Handle>, busIndex: map<string, Handle>, inputs: seq<BusInput>) {
    var firsts := FirstOccurrences(busIndex, inputs);
    forall k :: 0 <= k < |firsts| ==> Buildable(stopIndex, firsts[k].stops, firsts[k].isRing)
  }

  /** Splitting off the last input: the front asks no more of `AddBus`, and the last input is buildable if new. */
  lemma BusInputsOkLast(stopIndex: map<string, Handle>, busIndex: map<string, Handle>, inputs: seq<BusInput>)
    requires inputs != [] && BusInputsOk(stopIndex, busIndex, inputs)
    ensures BusInputsOk(stopIndex, busIndex, inputs[..|inputs| - 1])
    ensures Fresh(busIndex, inputs, |inputs| - 1) ==>
      Buildable(stopIndex, inputs[|inputs| - 1].stops, inputs[|inputs| - 1].isRing)
  {
    var m := |inputs| - 1;
    var front := FirstOccurrences(busIndex, inputs[..m]);
    var all := FirstOccurrences(busIndex, inputs);
    assert forall k :: 0 <= k < |front| ==> all[k] == front[k];
    if Fresh(busIndex, inputs, m) {
      assert all[|front|] == inputs[m];
    }
  }

  /**
   * The registry after `AddBuses`: the `AddBus` transition applied to every input in input
   * order. The arena of stops keeps its size, and exactly the names registered before or given
   * by an input are registered afterwards.
   */
  function AfterAddBuses(reg: Registry, stopIndex: map<string, Handle>, table: map<DistanceKey, int>,
                         arc: (Coordinates, Coordinates) -> int, inputs: seq<BusInput>): (r: Registry)
    requires PointsInto(stopIndex, |reg.stops|)
    requires BusInputsOk(stopIndex, reg.busIndex, inputs)
    ensures |r.stops| == |reg.stops|
    ensures r.busIndex.Keys == reg.busIndex.Keys + InputNames(inputs)
    decreases |inputs|
  {
    if inputs == [] then reg
    else
      var m := |inputs| - 1;
      BusInputsOkLast(stopIndex, reg.busIndex, inputs);
      var mid := AfterAddBuses(reg, stopIndex, table, arc, inputs[..m]);
      AfterAddBus(mid, stopIndex, table, arc, inputs[m].name, inputs[m].stops, inputs[m].isRing)
  }

  /** The records `AddBus` builds for the inputs `firsts`, in order, measured on `stops`. */
  function Records(firsts: seq<BusInput>, stopIndex: map<string, Handle>, table: map<DistanceKey, int>,
                   stops: seq<Stop>, arc: (Coordinates, Coordinates) -> int): seq<Bus>
    requires PointsInto(stopIndex, |stops|)
    requires forall k :: 0 <= k < |firsts| ==> Buildable(stopIndex, firsts[k].stops, firsts[k].isRing)
  {
    seq(|firsts|, k requires 0 <= k < |firsts| => Record(firsts[k], stopIndex, table, stops, arc))
  }

  /** The record `AddBus` builds for a new input, measured on `stops`. */
  function Record(input: BusInput, stopIndex: map<string, Handle>, table: map<DistanceKey, int>,
                  stops: seq<Stop>, arc: (Coordinates, Coordinates) -> int): Bus
    requires PointsInto(stopIndex, |stops|)
    requires Buildable(stopIndex, input.stops, input.isRing)
  {
    NewBus(input.name, Resolve(stopIndex, input.stops), input.isRing, table, stops, arc)
  }

  /** A prefix of the inputs asks no more of `AddBus` than the whole list. */
  lemma {:induction false} BusInputsOkPrefix(stopIndex: map<string, Handle>, busIndex: map<string, Handle>,
                                             inputs: seq<BusInput>, i: nat)
    requires i <= |inputs| && BusInputsOk(stopIndex, busIndex, inputs)
    ensures BusInputsOk(stopIndex, busIndex, inputs[..i])
    decreases |inputs|
  {
    if i < |inputs| {
      var m := |inputs| - 1;
      BusInputsOkLast(stopIndex, busIndex, inputs);
      BusInputsOkPrefix(stopIndex, busIndex, inputs[..m], i);
      assert inputs[..m][..i] == inputs[..i];
    } else {
      assert inputs[..i] == inputs;
    }
  }

  /** One input more: the last input either reaches the new-name branch of `AddBus` or changes nothing. */
  lemma AddBusesStep(reg: Registry, stopIndex: map<string, Handle>, table: map<DistanceKey, int>,
                     arc: (Coordinates, Coordinates) -> int, inputs: seq<BusInput>)
    requires inputs != [] && PointsInto(stopIndex, |reg.stops|)
    requires BusInputsOk(stopIndex, reg.busIndex, inputs)
    ensures BusInputsOk(stopIndex, reg.busIndex, inputs[..|inputs| - 1])
    ensures var m := |inputs| - 1;
      var mid := AfterAddBuses(reg, stopIndex, table, arc, inputs[..m]);
      var r := AfterAddBuses(reg, stopIndex, table, arc, inputs);
      var front := FirstOccurrences(reg.busIndex, inputs[..m]);
      && |mid.stops| == |r.stops| == |reg.stops|
      && (Fresh(reg.busIndex, inputs, m) ==>
            && Buildable(stopIndex, inputs[m].stops, inputs[m].isRing)
            && FirstOccurrences(reg.busIndex, inputs) == front + [inputs[m]]
            && r.stops == Marked(mid.stops, Resolve(stopIndex, inputs[m].stops), inputs[m].name)
            && r.buses == mid.buses + [Record(inputs[m], stopIndex, table, r.stops, arc)])
      && (!Fresh(reg.busIndex, inputs, m) ==> FirstOccurrences(reg.busIndex, inputs) == front && r == mid)
  {
    BusInputsOkLast(stopIndex, reg.busIndex, inputs);
  }

  /** The records of a list with one input more. */
  lemma RecordsAppend(firsts: seq<BusInput>, input: BusInput, stopIndex: map<string, Handle>,
                      table: map<DistanceKey, int>, stops: seq<Stop>, arc: (Coordinates, Coordinates) -> int)
    requires PointsInto(stopIndex, |stops|)
    requires forall k :: 0 <= k < |firsts| ==> Buildable(stopIndex, firsts[k].stops, firsts[k].isRing)
    requires Buildable(stopIndex, input.stops, input.isRing)
    ensures Records(firsts + [input], stopIndex, table, stops, arc)
         == Records(firsts, stopIndex, table, stops, arc) + [Record(input, stopIndex, table, stops, arc)]
  {
  }

  /** Marking stops leaves every record measured as it was. */
  lemma RecordsAfterMarking(firsts: seq<BusInput>, stopIndex: map<string, Handle>, table: map<DistanceKey, int>,
                            stops: seq<Stop>, route: seq<Handle>, name: string, arc: (Coordinates, Coordinates) -> int)
    requires PointsInto(stopIndex, |stops|)
    requires forall k :: 0 <= k < |firsts| ==> Buildable(stopIndex, firsts[k].stops, firsts[k].isRing)
    ensures Records(firsts, stopIndex, table, stops, arc)
         == Records(firsts, stopIndex, table, Marked(stops, route, name), arc)
  {
    var marked := Marked(stops, route, name);
    forall k | 0 <= k < |firsts|
      ensures Record(firsts[k], stopIndex, table, stops, arc) == Record(firsts[k], stopIndex, table, marked, arc)
    {
      NewBusSameCoordinates(firsts[k].name, Resolve(stopIndex, firsts[k].stops), firsts[k].isRing, table,
                            stops, marked, arc);
    }
  }

  /**
   * `AddBuses` appends one record per input that reaches the new-name branch of `AddBus`, in
   * input order, so a repeated name keeps the record of its first input and a name registered
   * before keeps its old record. Each new record is the one `NewBus` describes, measured on
   * the final stops; the records already there stay as they were.
   */
  lemma {:induction false} AddBusesAppends(reg: Registry, stopIndex: map<string, Handle>, table: map<DistanceKey, int>,
                                           arc: (Coordinates, Coordinates) -> int, inputs: seq<BusInput>)
    requires PointsInto(stopIndex, |reg.stops|)
    requires BusInputsOk(stopIndex, reg.busIndex, inputs)
    ensures var r := AfterAddBuses(reg, stopIndex, table, arc, inputs);
      r.buses == reg.buses + Records(FirstOccurrences(reg.busIndex, inputs), stopIndex, table, r.stops, arc)
    decreases |inputs|
  {
    if inputs != [] {
      var m := |inputs| - 1;
      AddBusesStep(reg, stopIndex, table, arc, inputs);
      AddBusesAppends(reg, stopIndex, table, arc, inputs[..m]);
      if Fresh(reg.busIndex, inputs, m) {
        var mid := AfterAddBuses(reg, stopIndex, table, arc, inputs[..m]);
        var front := FirstOccurrences(reg.busIndex, inputs[..m]);
        var marked := Marked(mid.stops, Resolve(stopIndex, inputs[m].stops), inputs[m].name);
        RecordsAfterMarking(front, stopIndex, table, mid.stops, Resolve(stopIndex, inputs[m].stops),
                            inputs[m].name, arc);
        RecordsAppend(front, inputs[m], stopIndex, table, marked, arc);
      }
    }
  }

  /** The input calls at stop `h`. */
  predicate CallsAt(input: BusInput, stopIndex: map<string, Handle>, h: Handle)
    requires Buildable(stopIndex, input.stops, input.isRing)
  {
    h in Resolve(stopIndex, input.stops)
  }

  /** Some input that reaches the new-name branch carries the name `n` and calls at stop `h`. */
  predicate Serves(firsts: seq<BusInput>, stopIndex: map<string, Handle>, h: Handle, n: string)
    requires forall k :: 0 <= k < |firsts| ==> Buildable(stopIndex, firsts[k].stops, firsts[k].isRing)
  {
    exists k :: 0 <= k < |firsts| && firsts[k].name == n && CallsAt(firsts[k], stopIndex, h)
  }

  /** An input more: it serves the stop under its own name, or one of the earlier inputs does. */
  lemma ServesAppend(front: seq<BusInput>, input: BusInput, stopIndex: map<string, Handle>, h: Handle, n: string)
    requires forall k :: 0 <= k < |front| ==> Buildable(stopIndex, front[k].stops, front[k].isRing)
    requires Buildable(stopIndex, input.stops, input.isRing)
    ensures Serves(front + [input], stopIndex, h, n) <==>
      Serves(front, stopIndex, h, n) || (input.name == n && CallsAt(input, stopIndex, h))
  {
    var firsts := front + [input];
    if Serves(firsts, stopIndex, h, n) {
      var k :| 0 <= k < |firsts| && firsts[k].name == n && CallsAt(firsts[k], stopIndex, h);
      if k < |front| {
        assert firsts[k] == front[k];
      }
    }
    if Serves(front, stopIndex, h, n) {
      var k :| 0 <= k < |front| && front[k].name == n && CallsAt(front[k], stopIndex, h);
      assert firsts[k] == front[k];
    }
    if input.name == n && CallsAt(input, stopIndex, h) {
      assert firsts[|front|] == input;
    }
  }

  /**
   * After `AddBuses` a stop keeps its name and coordinates, and its bus set gains exactly the
   * names of the new buses whose input calls at it.
   */
  lemma {:induction false} AddBusesMarks(reg: Registry, stopIndex: map<string, Handle>, table: map<DistanceKey, int>,
                                         arc: (Coordinates, Coordinates) -> int, inputs: seq<BusInput>, h: nat)
    requires PointsInto(stopIndex, |reg.stops|)
    requires BusInputsOk(stopIndex, reg.busIndex, inputs)
    requires h < |reg.stops|
    ensures var r := AfterAddBuses(reg, stopIndex, table, arc, inputs);
      && r.stops[h].name == reg.stops[h].name && r.stops[h].coordinates == reg.stops[h].coordinates
      && forall n :: n in r.stops[h].buses <==>
           n in reg.stops[h].buses || Serves(FirstOccurrences(reg.busIndex, inputs), stopIndex, h, n)
    decreases |inputs|
  {
    if inputs != [] {
      var m := |inputs| - 1;
      AddBusesStep(reg, stopIndex, table, arc, inputs);
      AddBusesMarks(reg, stopIndex, table, arc, inputs[..m], h);
      if Fresh(reg.busIndex, inputs, m) {
        var mid := AfterAddBuses(reg, stopIndex, table, arc, inputs[..m]);
        var r := AfterAddBuses(reg, stopIndex, table, arc, inputs);
        var front := FirstOccurrences(reg.busIndex, inputs[..m]);
        var input := inputs[m];
        var route := Resolve(stopIndex, input.stops);
        assert r.stops == Marked(mid.stops, route, input.name);
        assert r.stops[h].name == mid.stops[h].name && r.stops[h].coordinates == mid.stops[h].coordinates;
        forall n
          ensures n in r.stops[h].buses <==> n in reg.stops[h].buses || Serves(front + [input], stopIndex, h, n)
        {
          ServesAppend(front, input, stopIndex, h, n);
          assert n in r.stops[h].buses <==> n in mid.stops[h].buses || (n == input.name && h in route);
        }
      }
    }
  }

  /** Feeding input `i` after the inputs before it is one more step of the `AddBus` transition. */
  lemma AddBusesNext(reg: Registry, stopIndex: map<string, Handle>, table: map<DistanceKey, int>,
                     arc: (Coordinates, Coordinates) -> int, inputs: seq<BusInput>, i: nat)
    requires i < |inputs| && PointsInto(stopIndex, |reg.stops|)
    requires BusInputsOk(stopIndex, reg.busIndex, inputs)
    ensures BusInputsOk(stopIndex, reg.busIndex, inputs[..i]) && BusInputsOk(stopIndex, reg.busIndex, inputs[..i + 1])
    ensures var mid := AfterAddBuses(reg, stopIndex, table, arc, inputs[..i]);
      && (inputs[i].name !in mid.busIndex ==> Buildable(stopIndex, inputs[i].stops, inputs[i].isRing))
      && AfterAddBuses(reg, stopIndex, table, arc, inputs[..i + 1])
         == AfterAddBus(mid, stopIndex, table, arc, inputs[i].name, inputs[i].stops, inputs[i].isRing)
  {
    BusInputsOkPrefix(stopIndex, reg.busIndex, inputs, i + 1);
    assert inputs[..i + 1][..i] == inputs[..i];
    AddBusesStep(reg, stopIndex, table, arc, inputs[..i + 1]);
  }

  class RequestInterface {
    /** `catalog_` (the `tr_cat_` of request_handler.cpp): the catalogue the requests are applied to. */
    const catalogue: TransportCatalogue
    /** `stops_` */
    var stopInputs: seq<StopInput>
    /** `buses_` */
    var busInputs: seq<BusInput>
    /** `distances_`: for each stop name, its (neighbour, meters) entries, in the map's iteration order. */
    var distanceInputs: seq<(string, seq<(string, int)>)>
    /** `stats_` */
    var stats: seq<Stat>
    /** `answers_` */
    var answers: seq<Answer>

    constructor (catalogue: TransportCatalogue, stopInputs: seq<StopInput>, busInputs: seq<BusInput>,
                 distanceInputs: seq<(string, seq<(string, int)>)>, stats: seq<Stat>)
      ensures this.catalogue == catalogue && this.stopInputs == stopInputs && this.busInputs == busInputs
      ensures this.distanceInputs == distanceInputs && this.stats == stats && answers == []
    {
      this.catalogue := catalogue;
      this.stopInputs := stopInputs;
      this.busInputs := busInputs;
      this.distanceInputs := distanceInputs;
      this.stats := stats;
      answers := [];
    }

    /**
     * `AddStops`: every input, in input order, becomes a stop record of the catalogue; the
     * stop map ends up as `Pointed` describes. Buses and distances are untouched.
     */
    method AddStops()
      requires catalogue.Valid()
      modifies catalogue
      ensures catalogue.Valid()
      ensures catalogue.stops == old(catalogue.stops) + StopRecords(stopInputs)
      ensures catalogue.stopIndex == Pointed(old(catalogue.stopIndex), |old(catalogue.stops)|, stopInputs)
      ensures catalogue.buses == old(catalogue.buses) && catalogue.busIndex == old(catalogue.busIndex)
      ensures catalogue.busNames == old(catalogue.busNames) && catalogue.distances == old(catalogue.distances)
    {
      for i := 0 to |stopInputs|
        invariant catalogue.Valid()
        invariant catalogue.stops == old(catalogue.stops) + StopRecords(stopInputs[..i])
        invariant catalogue.stopIndex == Pointed(old(catalogue.stopIndex), |old(catalogue.stops)|, stopInputs[..i])
        invariant catalogue.buses == old(catalogue.buses) && catalogue.busIndex == old(catalogue.busIndex)
        invariant catalogue.busNames == old(catalogue.busNames) && catalogue.distances == old(catalogue.distances)
      {
        catalogue.AddStop(stopInputs[i].name, stopInputs[i].coordinates);
        assert stopInputs[..i + 1][..i] == stopInputs[..i];
        assert Pointed(old(catalogue.stopIndex), |old(catalogue.stops)|, stopInputs[..i + 1])
            == Pointed(old(catalogue.stopIndex), |old(catalogue.stops)|, stopInputs[..i])[stopInputs[i].name := |old(catalogue.stops)| + i];
        assert StopRecords(stopInputs[..i + 1]) == StopRecords(stopInputs[..i]) + [Stop(stopInputs[i].name, stopInputs[i].coordinates, {})];
      }
      assert stopInputs[..|stopInputs|] == stopInputs;
    }

    /**
     * `AddDistances`: every (lhs, rhs, meters) entry, row by row, is forwarded to `AddDistance`;
     * the table ends up as `Forwarded` describes and nothing else changes.
     */
    method AddDistances()
      requires catalogue.Valid()
      modifies catalogue
      ensures catalogue.Valid()
      ensures catalogue.distances == Forwarded(old(catalogue.distances), catalogue.stopIndex, Triples(distanceInputs))
      ensures catalogue.stops == old(catalogue.stops) && catalogue.stopIndex == old(catalogue.stopIndex)
      ensures catalogue.buses == old(catalogue.buses) && catalogue.busIndex == old(catalogue.busIndex)
      ensures catalogue.busNames == old(catalogue.busNames)
    {
      for g := 0 to |distanceInputs|
        invariant catalogue.Valid()
        invariant catalogue.distances
          == Forwarded(old(catalogue.distances), catalogue.stopIndex, Triples(distanceInputs[..g]))
        invariant catalogue.stops == old(catalogue.stops) && catalogue.stopIndex == old(catalogue.stopIndex)
        invariant catalogue.buses == old(catalogue.buses) && catalogue.busIndex == old(catalogue.busIndex)
        invariant catalogue.busNames == old(catalogue.busNames)
      {
        ForwardedAppend(old(catalogue.distances), catalogue.stopIndex, Triples(distanceInputs[..g]),
                        Row(distanceInputs[g].0, distanceInputs[g].1));
        AddRow(distanceInputs[g].0, distanceInputs[g].1);
        assert distanceInputs[..g + 1][..g] == distanceInputs[..g];
      }
      assert distanceInputs[..|distanceInputs|] == distanceInputs;
    }

    /** The inner loop of `AddDistances`: the entries of one stop, in order, forwarded to `AddDistance`. */
    method AddRow(lhs: string, entries: seq<(string, int)>)
      requires catalogue.Valid()
      modifies catalogue
      ensures catalogue.Valid()
      ensures catalogue.distances == Forwarded(old(catalogue.distances), catalogue.stopIndex, Row(lhs, entries))
      ensures catalogue.stops == old(catalogue.stops) && catalogue.stopIndex == old(catalogue.stopIndex)
      ensures catalogue.buses == old(catalogue.buses) && catalogue.busIndex == old(catalogue.busIndex)
      ensures catalogue.busNames == old(catalogue.busNames)
    {
      for k := 0 to |entries|
        invariant catalogue.Valid()
        invariant catalogue.distances == Forwarded(old(catalogue.distances), catalogue.stopIndex, Row(lhs, entries[..k]))
        invariant catalogue.stops == old(catalogue.stops) && catalogue.stopIndex == old(catalogue.stopIndex)
        invariant catalogue.buses == old(catalogue.buses) && catalogue.busIndex == old(catalogue.busIndex)
        invariant catalogue.busNames == old(catalogue.busNames)
      {
        catalogue.AddDistance(lhs, entries[k].0, entries[k].1);
        assert Row(lhs, entries[..k + 1])[..k] == Row(lhs, entries[..k]);
      }
      assert entries[..|entries|] == entries;
    }

    /**
     * `AddBuses`: every input, in input order, goes to `AddBus`. The arenas, the bus map and the
     * name list end up as `AfterAddBuses` describes; stops and distances are as before, and every
     * bus added here records the road length of its route under the catalogue's final table.
     */
    method AddBuses()
      requires catalogue.Valid()
      requires BusInputsOk(catalogue.stopIndex, catalogue.busIndex, busInputs)
      modifies catalogue
      ensures catalogue.Valid()
      ensures catalogue.distances == old(catalogue.distances) && catalogue.stopIndex == old(catalogue.stopIndex)
      ensures catalogue.State() == AfterAddBuses(old(catalogue.State()), old(catalogue.stopIndex),
                                                 old(catalogue.distances), catalogue.arc, busInputs)
      ensures LengthsFrom(catalogue.distances, catalogue.stops, catalogue.arc, catalogue.buses, |old(catalogue.buses)|)
    {
      for i := 0 to |busInputs|
        invariant catalogue.Valid()
        invariant catalogue.distances == old(catalogue.distances) && catalogue.stopIndex == old(catalogue.stopIndex)
        invariant BusInputsOk(catalogue.stopIndex, old(catalogue.busIndex), busInputs[..i])
        invariant catalogue.State() == AfterAddBuses(old(catalogue.State()), catalogue.stopIndex,
                                                     catalogue.distances, catalogue.arc, busInputs[..i])
        invariant LengthsFrom(catalogue.distances, catalogue.stops, catalogue.arc, catalogue.buses, |old(catalogue.buses)|)
      {
        AddBusesNext(old(catalogue.State()), catalogue.stopIndex, catalogue.distances, catalogue.arc, busInputs, i);
        FeedBus(busInputs[i], |old(catalogue.buses)|);
      }
      assert busInputs[..|busInputs|] == busInputs;
    }

    /**
     * The per-input step of `AddBuses` (the lambda given to `for_each`): one `AddBus` call, so
     * one step of the `AfterAddBus` transition. The lengths recorded by the buses from index
     * `from` on stay those of the catalogue's table.
     */
    method FeedBus(input: BusInput, ghost from: nat)
      requires catalogue.Valid()
      requires input.name !in catalogue.busIndex ==> Buildable(catalogue.stopIndex, input.stops, input.isRing)
      modifies catalogue
      ensures catalogue.Valid()
      ensures catalogue.distances == old(catalogue.distances) && catalogue.stopIndex == old(catalogue.stopIndex)
      ensures catalogue.State() == AfterAddBus(old(catalogue.State()), old(catalogue.stopIndex), old(catalogue.distances),
                                               catalogue.arc, input.name, input.stops, input.isRing)
      ensures old(LengthsFrom(catalogue.distances, catalogue.stops, catalogue.arc, catalogue.buses, from))
        ==> LengthsFrom(catalogue.distances, catalogue.stops, catalogue.arc, catalogue.buses, from)
    {
      catalogue.AddBus(input.name, input.stops, input.isRing);
      if input.name !in old(catalogue.busIndex) && old(LengthsFrom(catalogue.distances, catalogue.stops, catalogue.arc, catalogue.buses, from)) {
        AddBusKeepsLengths(catalogue.distances, catalogue.arc, old(catalogue.stops), old(catalogue.buses),
                           catalogue.stops, catalogue.buses, input.name, Resolve(catalogue.stopIndex, input.stops),
                           input.isRing, from);
      }
    }

    /**
     * `GetAnswers`: the answers `Answers` describes for the stat requests, in order, appended to
     * `answers_`; `thrown` reports the `invalid_argument` of a request of unknown type, after
     * which the answers to the earlier requests stay appended.
     */
    method GetAnswers() returns (thrown: bool)
      requires catalogue.Valid()
      modifies this`answers
      ensures var r := Answers(catalogue.stopIndex, catalogue.busIndex, stats);
        answers == old(answers) + r.0 && thrown == r.1
    {
      var i := 0;
      while i < |stats|
        invariant 0 <= i <= |stats|
        invariant var r := Answers(catalogue.stopIndex, catalogue.busIndex, stats[..i]);
          answers == old(answers) + r.0 && !r.1
      {
        var stat := stats[i];
        assert stats[..i + 1][..i] == stats[..i];
        var answer: Answer;
        if stat.kind == "Bus" {
          var bus := catalogue.GetBusInfo(stat.name);
          if bus.None? {
            answer := NotFound(stat.id);
          } else {
            answer := BusOutput(stat.id, bus.value);
          }
        } else if stat.kind == "Stop" {
          var stop := catalogue.GetStopInfo(stat.name);
          if stop.None? {
            answer := NotFound(stat.id);
          } else {
            answer := StopOutput(stat.id, stop.value);
          }
        } else if stat.kind == "Map" {
          answer := MapOutput(stat.id);
        } else if stat.kind == "Route" {
          var from := catalogue.GetStopInfo(stat.from);
          var to := catalogue.GetStopInfo(stat.to);
          if from.None? || to.None? {
            answer := NotFound(stat.id);
          } else {
            answer := RouteOutput(stat.id, from.value, to.value);
          }
        } else {
          AnswersStopAtThrow(catalogue.stopIndex, catalogue.busIndex, stats, i + 1);
          return true;
        }
        assert AnswerFor(catalogue.stopIndex, catalogue.busIndex, stat) == Some(answer);
        answers := answers + [answer];
        i := i + 1;
      }
      assert stats[..i] == stats;
      return false;
    }
  }

  /**
   * `Process`: after the reader has read and parsed its document, the stops go in first, then
   * the distances, then the buses, and then the requests are answered. The stop map ends up as
   * `Pointed` describes, the distance table as `Forwarded` describes on that map, and the buses
   * as `AfterAddBuses` describes on the new stop records and the final table. Because the
   * distances are all in before any bus is measured, every bus this run adds records the road
   * length of its route under the final table; every input stop and bus name resolves, and the
   * answers are those `Answers` gives on the final catalogue.
   */
  method Process(reader: RequestInterface) returns (thrown: bool)
    requires reader.catalogue.Valid()
    requires BusInputsOk(Pointed(reader.catalogue.stopIndex, |reader.catalogue.stops|, reader.stopInputs),
                         reader.catalogue.busIndex, reader.busInputs)
    modifies reader.catalogue, reader`answers
    ensures reader.catalogue.Valid()
    ensures reader.catalogue.stopIndex
      == Pointed(old(reader.catalogue.stopIndex), |old(reader.catalogue.stops)|, reader.stopInputs)
    ensures reader.catalogue.distances
      == Forwarded(old(reader.catalogue.distances), reader.catalogue.stopIndex, Triples(reader.distanceInputs))
    ensures |reader.catalogue.stops| == |old(reader.catalogue.stops)| + |reader.stopInputs|
    ensures reader.catalogue.State() == AfterAddBuses(
      Registry(old(reader.catalogue.stops) + StopRecords(reader.stopInputs), old(reader.catalogue.buses),
               old(reader.catalogue.busIndex), old(reader.catalogue.busNames)),
      reader.catalogue.stopIndex, reader.catalogue.distances, reader.catalogue.arc, reader.busInputs)
    ensures forall j :: 0 <= j < |reader.stopInputs| ==> reader.catalogue.FindStop(reader.stopInputs[j].name).Some?
    ensures forall j :: 0 <= j < |reader.busInputs| ==> reader.catalogue.FindBus(reader.busInputs[j].name).Some?
    ensures LengthsFrom(reader.catalogue.distances, reader.catalogue.stops, reader.catalogue.arc,
                        reader.catalogue.buses, |old(reader.catalogue.buses)|)
    ensures var r := Answers(reader.catalogue.stopIndex, reader.catalogue.busIndex, reader.stats);
      reader.answers == old(reader.answers) + r.0 && thrown == r.1
  {
    var cat := reader.catalogue;
    reader.AddStops();
    PointedCovers(old(cat.stopIndex), |old(cat.stops)|, reader.stopInputs);
    reader.AddDistances();
    reader.AddBuses();
    forall j | 0 <= j < |reader.busInputs| ensures reader.busInputs[j].name in cat.busIndex {
      InputNamesMeaning(reader.busInputs, reader.busInputs[j].name);
    }
    thrown := reader.GetAnswers();
  }
}
