/**
 * The JSON document model of json.cpp: a node is null, an array, a dict, a bool, an int, a
 * double or a string, and the typed accessors `Node::As*` either return the held value or fail
 * with the library's `logic_error` message.
 */
module Json {
  import opened Wrappers

  /** `int` of the library: a 32-bit signed integer. */
  const IntMin: int := -0x8000_0000
  const IntMax: int := 0x7FFF_FFFF

  predicate InIntRange(v: int) {
    IntMin <= v <= IntMax
  }

  /**
   * A double as the decimal number its text denotes, `mantissa * 10^exponent`; the rounding to
   * binary floating point is not part of this model.
   */
  datatype Decimal = Decimal(mantissa: int, exponent: int)

  /** `Dict` is an ordered map from string keys to nodes; the key order plays no part here. */
  datatype Node =
    | Null
    | Array(items: seq<Node>)
    | Dict(entries: map<string, Node>)
    | Bool(b: bool)
    | Int(i: int)
    | Double(d: Decimal)
    | String(s: string)

  /** A node is well formed when every int it holds, at any depth, fits the 32-bit range. */
  predicate WellFormed(n: Node) {
    match n
    case Int(i) => InIntRange(i)
    case Array(items) => forall k :: 0 <= k < |items| ==> WellFormed(items[k])
    case Dict(entries) => forall key :: key in entries ==> WellFormed(entries[key])
    case _ => true
  }

  function AsBool(n: Node): (r: Result<bool>)
    ensures r.Ok? <==> n.Bool?
    ensures r.Ok? ==> n == Bool(r.value)
    ensures r.Err? ==> r.msg == "Is not Bool"
  {
    if !n.Bool? then Err("Is not Bool") else Ok(n.b)
  }

  function AsInt(n: Node): (r: Result<int>)
    ensures r.Ok? <==> n.Int?
    ensures r.Ok? ==> n == Int(r.value)
    ensures r.Err? ==> r.msg == "Is not Int"
  {
    if !n.Int? then Err("Is not Int") else Ok(n.i)
  }

  /** A double, or an int widened to a double; anything else fails. */
  function AsDouble(n: Node): (r: Result<Decimal>)
    ensures r.Ok? <==> n.Double? || n.Int?
    ensures n.Double? ==> r == Ok(n.d)
    ensures n.Int? ==> r == Ok(Decimal(n.i, 0))
    ensures r.Err? ==> r.msg == "Is not Double"
  {
    if n.Double? then Ok(n.d)
    else if n.Int? then Ok(Decimal(n.i, 0))
    else Err("Is not Double")
  }

  function AsString(n: Node): (r: Result<string>)
    ensures r.Ok? <==> n.String?
    ensures r.Ok? ==> n == String(r.value)
    ensures r.Err? ==> r.msg == "Is not String"
  {
    if !n.String? then Err("Is not String") else Ok(n.s)
  }

  function AsArray(n: Node): (r: Result<seq<Node>>)
    ensures r.Ok? <==> n.Array?
    ensures r.Ok? ==> n == Array(r.value)
    ensures r.Err? ==> r.msg == "Is not Array"
  {
    if !n.Array? then Err("Is not Array") else Ok(n.items)
  }

  function AsMap(n: Node): (r: Result<map<string, Node>>)
    ensures r.Ok? <==> n.Dict?
    ensures r.Ok? ==> n == Dict(r.value)
    ensures r.Err? ==> r.msg == "Is not Map"
  {
    if !n.Dict? then Err("Is not Map") else Ok(n.entries)
  }

  /**
   * Every accessor is the inverse of its constructor, and at most one of them other than
   * `AsDouble` succeeds on any node.
   */
  lemma AccessorsInvertConstructors(b: bool, i: int, d: Decimal, s: string, items: seq<Node>,
                                    entries: map<string, Node>, n: Node)
    ensures AsBool(Bool(b)) == Ok(b) && AsInt(Int(i)) == Ok(i) && AsDouble(Double(d)) == Ok(d)
    ensures AsString(String(s)) == Ok(s) && AsArray(Array(items)) == Ok(items)
    ensures AsMap(Dict(entries)) == Ok(entries)
    ensures AsDouble(Int(i)) == Ok(Decimal(i, 0))
    ensures AsBool(n).Ok? ==> AsInt(n).Err? && AsString(n).Err? && AsArray(n).Err? && AsMap(n).Err?
    ensures AsInt(n).Ok? ==> AsDouble(n).Ok? && AsString(n).Err? && AsArray(n).Err? && AsMap(n).Err?
  {
  }
}
