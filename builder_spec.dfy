/**
 * The state machine of the JSON builder (json_builder.cpp / json_builder.h) on values: a node
 * under construction, a stack of the containers still open (pointers into the node, modelled
 * as paths from the root) and a pending key with its flag. Each operation is a transition of a
 * `BuilderState`; the `Builder` class of json_builder.dfy performs the same transitions in
 * place.
 */
module BuilderSpec {
  import opened Wrappers
  import opened Json

  /** One step down a node: an array element or a dict entry. */
  datatype Step = At(index: nat) | Under(name: string)

  /** Where a node sits inside the root: the steps from the root down to it. */
  type Path = seq<Step>

  /** The node at the end of path, if the path leads anywhere. */
  function NodeAt(n: Node, path: Path): Option<Node>
    decreases |path|
  {
    if path == [] then Some(n)
    else match path[0]
      case At(i) => if n.Array? && i < |n.items| then NodeAt(n.items[i], path[1..]) else None
      case Under(k) => if n.Dict? && k in n.entries then NodeAt(n.entries[k], path[1..]) else None
  }

  /** n with the node at the end of path replaced by v (n itself when the path leads nowhere). */
  function SetAt(n: Node, path: Path, v: Node): Node
    decreases |path|
  {
    if path == [] then v
    else match path[0]
      case At(i) =>
        if n.Array? && i < |n.items| then Array(n.items[i := SetAt(n.items[i], path[1..], v)]) else n
      case Under(k) =>
        if n.Dict? && k in n.entries then Dict(n.entries[k := SetAt(n.entries[k], path[1..], v)]) else n
  }

  /** Following a path in two parts is following the first part, then the second. */
  lemma {:induction false} NodeAtJoin(n: Node, a: Path, b: Path)
    ensures NodeAt(n, a + b) == if NodeAt(n, a).Some? then NodeAt(NodeAt(n, a).value, b) else None
    decreases |a|
  {
    if a != [] {
      assert (a + b)[0] == a[0];
      assert (a + b)[1..] == a[1..] + b;
      match a[0]
      case At(i) =>
        if n.Array? && i < |n.items| {
          NodeAtJoin(n.items[i], a[1..], b);
        }
      case Under(k) =>
        if n.Dict? && k in n.entries {
          NodeAtJoin(n.entries[k], a[1..], b);
        }
    } else {
      assert a + b == b;
    }
  }

  /** After a replacement the path leads to the new node. */
  lemma {:induction false} SetAtThenGet(n: Node, path: Path, v: Node)
    requires NodeAt(n, path).Some?
    ensures NodeAt(SetAt(n, path, v), path) == Some(v)
    decreases |path|
  {
    if path != [] {
      match path[0]
      case At(i) => SetAtThenGet(n.items[i], path[1..], v);
      case Under(k) => SetAtThenGet(n.entries[k], path[1..], v);
    }
  }

  /** A replacement below the root keeps the root an array or a dict as it was. */
  lemma SetAtKeepsKind(n: Node, path: Path, v: Node)
    requires path != []
    ensures SetAt(n, path, v).Array? == n.Array? && SetAt(n, path, v).Dict? == n.Dict?
  {
  }

  /** The builder: the root, the open containers (innermost last) and the pending key. */
  datatype BuilderState = BuilderState(root: Node, stack: seq<Path>, key: string, isValue: bool)

  /** A new builder: a null root, no open container, no pending key. */
  function Fresh(): BuilderState {
    BuilderState(Null, [], [], false)
  }

  /** Every prefix of path, shortest first: the paths of the containers that enclose its end. */
  function Prefixes(path: Path): (r: seq<Path>)
    ensures |r| == |path| + 1
    ensures forall i :: 0 <= i < |r| ==> r[i] == path[..i]
  {
    seq(|path| + 1, i requires 0 <= i <= |path| => path[..i])
  }

  function TopPath(st: BuilderState): Path
    requires st.stack != []
  {
    st.stack[|st.stack| - 1]
  }

  /** The innermost open container, as it now stands in the root. */
  function TopNode(st: BuilderState): Option<Node> {
    if st.stack == [] then None else NodeAt(st.root, TopPath(st))
  }

  /**
   * What the builder keeps true between calls: the open containers are the root and the nodes
   * along one path below it, innermost last, and that path leads somewhere; while anything is
   * open the root is an array or a dict; a pending key belongs to an open dict.
   */
  predicate Valid(st: BuilderState) {
    && (st.stack == [] ==> !st.isValue)
    && (st.stack != [] ==>
         && st.stack == Prefixes(TopPath(st))
         && TopNode(st).Some?
         && (st.root.Array? || st.root.Dict?)
         && (st.isValue ==> TopNode(st).value.Dict?))
  }

  /** `emplace`: the entry is added only when the key is not there yet. */
  function Emplaced(entries: map<string, Node>, key: string, v: Node): (r: map<string, Node>)
    ensures key in r && r.Keys == entries.Keys + {key}
    ensures r[key] == if key in entries then entries[key] else v
    ensures forall k :: k in entries ==> r[k] == entries[k]
  {
    if key in entries then entries else entries[key := v]
  }

  /** Where a value may be placed: a fresh root, an open array, or an open dict after a key. */
  predicate CanPlace(st: BuilderState) {
    || (st.stack == [] && st.root.Null?)
    || (TopNode(st).Some? && (TopNode(st).value.Array? || (TopNode(st).value.Dict? && st.isValue)))
  }

  /** The typestate contexts of json_builder.h, as conditions on the state. */
  predicate ArrayContext(st: BuilderState) {
    TopNode(st).Some? && TopNode(st).value.Array?
  }

  predicate DictContext(st: BuilderState) {
    TopNode(st).Some? && TopNode(st).value.Dict? && !st.isValue
  }

  predicate KeyContext(st: BuilderState) {
    TopNode(st).Some? && TopNode(st).value.Dict? && st.isValue
  }

  // ---------------------------------------------------------------------------------------
  // The operations (json_builder.cpp)

  /**
   * `AddNewNodeContainer`: place a new container where a value may go and open it. A new root
   * is opened as the root; in an array the container is appended and its element opened; in a
   * dict it is emplaced under the pending key, which is used up, and the entry under that key
   * is opened, whether it is the new container or a value the key already had.
   */
  function AddNewNodeContainer(st: BuilderState, node: Node): Option<BuilderState> {
    if st.stack == [] && st.root.Null? then Some(st.(root := node, stack := [[]]))
    else if st.stack == [] then None
    else
      var top := TopPath(st);
      match TopNode(st)
      case Some(Array(items)) =>
        Some(st.(root := SetAt(st.root, top, Array(items + [node])), stack := st.stack + [top + [At(|items|)]]))
      case Some(Dict(entries)) =>
        if st.isValue then
          Some(st.(root := SetAt(st.root, top, Dict(Emplaced(entries, st.key, node))),
                   stack := st.stack + [top + [Under(st.key)]], isValue := false))
        else None
      case _ => None
  }

  function StartDict(st: BuilderState): Result<BuilderState> {
    match AddNewNodeContainer(st, Dict(map[]))
    case Some(st') => Ok(st')
    case None => Err("Start Dict unexpected in this context")
  }

  function StartArray(st: BuilderState): Result<BuilderState> {
    match AddNewNodeContainer(st, Array([]))
    case Some(st') => Ok(st')
    case None => Err("Start Array unexpected in this context")
  }

  function EndDict(st: BuilderState): Result<BuilderState> {
    if st.stack == [] then Err("Dict is not started, but you say End")
    else if TopNode(st).Some? && TopNode(st).value.Dict? && !st.isValue then
      Ok(st.(stack := st.stack[..|st.stack| - 1]))
    else Err("Unexpected End of Dict")
  }

  function EndArray(st: BuilderState): Result<BuilderState> {
    if st.stack == [] then Err("Array is not started, but you say End")
    else if TopNode(st).Some? && TopNode(st).value.Array? then Ok(st.(stack := st.stack[..|st.stack| - 1]))
    else Err("Unexpected End of Array")
  }

  function Key(st: BuilderState, key: string): Result<BuilderState> {
    if st.stack == [] then Err("Is not the Dict, but you tnter a Key")
    else if TopNode(st).Some? && TopNode(st).value.Dict? && !st.isValue then Ok(st.(key := key, isValue := true))
    else Err("Key unexpected in this context")
  }

  function Value(st: BuilderState, v: Node): Result<BuilderState> {
    if st.stack == [] && st.root.Null? then Ok(st.(root := v))
    else if st.stack == [] then Err("Not have container from Value")
    else
      var top := TopPath(st);
      match TopNode(st)
      case Some(Array(items)) => Ok(st.(root := SetAt(st.root, top, Array(items + [v]))))
      case Some(Dict(entries)) =>
        if st.isValue then Ok(st.(root := SetAt(st.root, top, Dict(Emplaced(entries, st.key, v))), isValue := false))
        else Err("Value unexpected in this context")
      case _ => Err("Value unexpected in this context")
  }

  function Build(st: BuilderState): Result<Node> {
    if st.stack != [] then Err("Dict or Array is not ended")
    else if st.root.Null? then Err("Empty Node")
    else Ok(st.root)
  }

  // ---------------------------------------------------------------------------------------
  // Well-formedness is kept

  lemma PrefixesPush(path: Path, s: Step)
    ensures Prefixes(path + [s]) == Prefixes(path) + [path + [s]]
  {
    var a, b := Prefixes(path + [s]), Prefixes(path) + [path + [s]];
    assert |a| == |b|;
    forall i | 0 <= i < |a|
      ensures a[i] == b[i]
    {
      if i <= |path| {
        assert (path + [s])[..i] == path[..i];
      } else {
        assert (path + [s])[..i] == path + [s];
      }
    }
  }

  lemma PrefixesPop(path: Path)
    requires path != []
    ensures Prefixes(path)[..|path|] == Prefixes(path[..|path| - 1])
  {
    var a, b := Prefixes(path)[..|path|], Prefixes(path[..|path| - 1]);
    assert |a| == |b|;
    forall i | 0 <= i < |a|
      ensures a[i] == b[i]
    {
      assert path[..|path| - 1][..i] == path[..i];
    }
  }

  /** Opening a new container keeps the state well formed, and the new container is innermost. */
  lemma AddKeepsValid(st: BuilderState, node: Node)
    requires Valid(st) && (node.Array? || node.Dict?) && AddNewNodeContainer(st, node).Some?
    ensures Valid(AddNewNodeContainer(st, node).value)
  {
    var st' := AddNewNodeContainer(st, node).value;
    if st.stack != [] {
      var top := TopPath(st);
      var n := TopNode(st).value;
      var n' := if n.Array? then Array(n.items + [node]) else Dict(Emplaced(n.entries, st.key, node));
      var s := if n.Array? then At(|n.items|) else Under(st.key);
      assert st'.root == SetAt(st.root, top, n') && TopPath(st') == top + [s];
      PrefixesPush(top, s);
      SetAtThenGet(st.root, top, n');
      NodeAtJoin(st'.root, top, [s]);
      if top != [] {
        SetAtKeepsKind(st.root, top, n');
      }
    }
  }

  /** Placing a value keeps the state well formed. */
  lemma ValueKeepsValid(st: BuilderState, v: Node)
    requires Valid(st) && Value(st, v).Ok?
    ensures Valid(Value(st, v).value)
  {
    if st.stack != [] {
      var top := TopPath(st);
      var n := TopNode(st).value;
      var n' := if n.Array? then Array(n.items + [v]) else Dict(Emplaced(n.entries, st.key, v));
      SetAtThenGet(st.root, top, n');
      if top != [] {
        SetAtKeepsKind(st.root, top, n');
      }
    }
  }

  /** Closing the innermost container keeps the state well formed. */
  lemma PopKeepsValid(st: BuilderState)
    requires Valid(st) && st.stack != [] && !st.isValue
    ensures Valid(st.(stack := st.stack[..|st.stack| - 1]))
  {
    var top := TopPath(st);
    if |st.stack| > 1 {
      var up := top[..|top| - 1];
      assert st.stack[|st.stack| - 2] == up;
      PrefixesPop(top);
      assert top == up + [top[|top| - 1]];
      NodeAtJoin(st.root, up, [top[|top| - 1]]);
    }
  }

  /** A new builder is well formed, and opening a container or placing a value keeps it so. */
  lemma OpeningKeepsValid(st: BuilderState, v: Node)
    ensures Valid(Fresh())
    requires Valid(st)
    ensures StartDict(st).Ok? ==> Valid(StartDict(st).value)
    ensures StartArray(st).Ok? ==> Valid(StartArray(st).value)
    ensures Value(st, v).Ok? ==> Valid(Value(st, v).value)
  {
    if StartDict(st).Ok? {
      AddKeepsValid(st, Dict(map[]));
    }
    if StartArray(st).Ok? {
      AddKeepsValid(st, Array([]));
    }
    if Value(st, v).Ok? {
      ValueKeepsValid(st, v);
    }
  }

  /** Closing a container or giving a key keeps a well-formed builder well formed. */
  lemma ClosingKeepsValid(st: BuilderState, k: string)
    requires Valid(st)
    ensures EndDict(st).Ok? ==> Valid(EndDict(st).value)
    ensures EndArray(st).Ok? ==> Valid(EndArray(st).value)
    ensures Key(st, k).Ok? ==> Valid(Key(st, k).value)
  {
    if EndDict(st).Ok? || EndArray(st).Ok? {
      PopKeepsValid(st);
    }
  }

  // ---------------------------------------------------------------------------------------
  // The rules of each operation

  /**
   * `Value`: on a fresh root it becomes the root; with nothing open and a root already set it
   * fails; in an open array it is appended; in an open dict after a key it is emplaced under
   * that key, which is used up; anywhere else it fails.
   */
  lemma ValueRules(st: BuilderState, v: Node)
    ensures st.stack == [] && st.root.Null? ==> Value(st, v) == Ok(st.(root := v))
    ensures st.stack == [] && !st.root.Null? ==> Value(st, v) == Err("Not have container from Value")
    ensures ArrayContext(st) ==>
      Value(st, v).Ok? && Value(st, v).value.stack == st.stack &&
      TopNode(Value(st, v).value) == Some(Array(TopNode(st).value.items + [v]))
    ensures KeyContext(st) ==>
      Value(st, v).Ok? && Value(st, v).value.stack == st.stack && !Value(st, v).value.isValue &&
      TopNode(Value(st, v).value) == Some(Dict(Emplaced(TopNode(st).value.entries, st.key, v)))
    ensures st.stack != [] && !CanPlace(st) ==> Value(st, v) == Err("Value unexpected in this context")
  {
    if ArrayContext(st) {
      SetAtThenGet(st.root, TopPath(st), Array(TopNode(st).value.items + [v]));
    }
    if KeyContext(st) {
      SetAtThenGet(st.root, TopPath(st), Dict(Emplaced(TopNode(st).value.entries, st.key, v)));
    }
  }

  /**
   * `StartDict` succeeds exactly where `Value` does and opens one more container, which, unless
   * the pending key is already in the dict, is a new empty dict.
   */
  lemma StartDictRules(st: BuilderState, v: Node)
    requires Valid(st)
    ensures StartDict(st).Ok? <==> CanPlace(st)
    ensures Value(st, v).Ok? <==> CanPlace(st)
    ensures StartDict(st).Err? ==> StartDict(st).msg == "Start Dict unexpected in this context"
    ensures StartDict(st).Ok? ==> |StartDict(st).value.stack| == |st.stack| + 1
    ensures CanPlace(st) && !(KeyContext(st) && st.key in TopNode(st).value.entries) ==>
      TopNode(StartDict(st).value) == Some(Dict(map[])) && DictContext(StartDict(st).value)
  {
    if CanPlace(st) && st.stack != [] {
      var top := TopPath(st);
      var n := TopNode(st).value;
      var d := if n.Array? then Array(n.items + [Dict(map[])]) else Dict(Emplaced(n.entries, st.key, Dict(map[])));
      var s := if n.Array? then At(|n.items|) else Under(st.key);
      SetAtThenGet(st.root, top, d);
      NodeAtJoin(SetAt(st.root, top, d), top, [s]);
    }
  }

  /**
   * `StartArray` succeeds exactly where `Value` does and opens one more container, which,
   * unless the pending key is already in the dict, is a new empty array.
   */
  lemma StartArrayRules(st: BuilderState, v: Node)
    requires Valid(st)
    ensures StartArray(st).Ok? <==> CanPlace(st)
    ensures Value(st, v).Ok? <==> CanPlace(st)
    ensures StartArray(st).Err? ==> StartArray(st).msg == "Start Array unexpected in this context"
    ensures StartArray(st).Ok? ==> |StartArray(st).value.stack| == |st.stack| + 1
    ensures CanPlace(st) && !(KeyContext(st) && st.key in TopNode(st).value.entries) ==>
      TopNode(StartArray(st).value) == Some(Array([])) && ArrayContext(StartArray(st).value)
  {
    if CanPlace(st) && st.stack != [] {
      var top := TopPath(st);
      var n := TopNode(st).value;
      var a := if n.Array? then Array(n.items + [Array([])]) else Dict(Emplaced(n.entries, st.key, Array([])));
      var s := if n.Array? then At(|n.items|) else Under(st.key);
      SetAtThenGet(st.root, top, a);
      NodeAtJoin(SetAt(st.root, top, a), top, [s]);
    }
  }

  /**
   * `Key` is accepted exactly in an open dict without a pending key, and then the key is
   * pending; the closing operations pop the innermost container exactly when it is of their
   * kind (and, for a dict, no key is pending).
   */
  lemma KeyAndEndRules(st: BuilderState, k: string)
    ensures Key(st, k).Ok? <==> DictContext(st)
    ensures Key(st, k).Ok? ==> KeyContext(Key(st, k).value) && Key(st, k).value.key == k
    ensures Key(st, k).Err? ==>
      Key(st, k).msg == (if st.stack == [] then "Is not the Dict, but you tnter a Key" else "Key unexpected in this context")
    ensures EndDict(st).Ok? <==> DictContext(st)
    ensures EndDict(st).Err? ==>
      EndDict(st).msg == (if st.stack == [] then "Dict is not started, but you say End" else "Unexpected End of Dict")
    ensures EndArray(st).Ok? <==> ArrayContext(st)
    ensures EndArray(st).Err? ==>
      EndArray(st).msg == (if st.stack == [] then "Array is not started, but you say End" else "Unexpected End of Array")
    ensures EndDict(st).Ok? ==> EndDict(st).value == st.(stack := st.stack[..|st.stack| - 1])
    ensures EndArray(st).Ok? ==> EndArray(st).value == st.(stack := st.stack[..|st.stack| - 1])
  {
  }

  /** `Build` yields the root once nothing is open and the root is set, and fails otherwise. */
  lemma BuildRules(st: BuilderState)
    ensures Build(st).Ok? <==> st.stack == [] && !st.root.Null?
    ensures Build(st).Ok? ==> Build(st).value == st.root
    ensures Build(st).Err? ==> Build(st).msg == if st.stack != [] then "Dict or Array is not ended" else "Empty Node"
  {
  }

  // ---------------------------------------------------------------------------------------
  // The typestate interfaces of json_builder.h

  /**
   * `ArrayReturn`: in an open array `Value`, `StartDict`, `StartArray` and `EndArray` are
   * accepted, `Key` and `EndDict` are not, and after `Value` the array is still innermost.
   */
  lemma ArrayReturnAllows(st: BuilderState, k: string, v: Node)
    requires Valid(st) && ArrayContext(st)
    ensures Value(st, v).Ok? && ArrayContext(Value(st, v).value)
    ensures StartDict(st).Ok? && StartArray(st).Ok? && EndArray(st).Ok?
    ensures Key(st, k).Err? && EndDict(st).Err?
  {
    ValueRules(st, v);
    StartDictRules(st, v);
    StartArrayRules(st, v);
  }

  /**
   * `DictReturn`: in an open dict without a pending key only `Key` and `EndDict` are accepted,
   * and after `Key` the builder is in the `KeyReturn` context.
   */
  lemma DictReturnAllows(st: BuilderState, k: string, v: Node)
    requires Valid(st) && DictContext(st)
    ensures Key(st, k).Ok? && KeyContext(Key(st, k).value) && EndDict(st).Ok?
    ensures Value(st, v).Err? && StartDict(st).Err? && StartArray(st).Err? && EndArray(st).Err?
  {
    StartDictRules(st, v);
    StartArrayRules(st, v);
  }

  /**
   * `KeyReturn`: after a key only `Value`, `StartArray` and `StartDict` are accepted, and after
   * `Value` the builder is back in the `DictReturn` context.
   */
  lemma KeyReturnAllows(st: BuilderState, k: string, v: Node)
    requires Valid(st) && KeyContext(st)
    ensures Value(st, v).Ok? && DictContext(Value(st, v).value)
    ensures StartDict(st).Ok? && StartArray(st).Ok?
    ensures Key(st, k).Err? && EndDict(st).Err? && EndArray(st).Err? && Build(st).Err?
  {
    ValueRules(st, v);
    StartDictRules(st, v);
    StartArrayRules(st, v);
  }

  /**
   * A repeated key breaks the typestate: `Value` leaves the first value in place, and
   * `StartArray` (typed as returning `ArrayReturn`) opens the value the key already had, so when
   * that is not an array the `EndArray` the interface offers next fails.
   */
  lemma RepeatedKeyOpensOldValue(st: BuilderState, v: Node)
    requires KeyContext(st) && st.key in TopNode(st).value.entries
    ensures Value(st, v).Ok? && TopNode(Value(st, v).value) == TopNode(st)
    ensures StartArray(st).Ok? && TopNode(StartArray(st).value) == Some(TopNode(st).value.entries[st.key])
    ensures !TopNode(st).value.entries[st.key].Array? ==>
      EndArray(StartArray(st).value) == Err("Unexpected End of Array")
  {
    var top := TopPath(st);
    var n := TopNode(st).value;
    ValueRules(st, v);
    assert Emplaced(n.entries, st.key, v) == n.entries;
    assert Emplaced(n.entries, st.key, Array([])) == n.entries;
    SetAtThenGet(st.root, top, n);
    NodeAtJoin(SetAt(st.root, top, n), top, [Under(st.key)]);
  }

  // ---------------------------------------------------------------------------------------
  // Whole documents

  /** `Value` applied to each of vs in turn. */
  function ValuesFrom(st: BuilderState, vs: seq<Node>): Result<BuilderState>
    decreases |vs|
  {
    if |vs| == 0 then Ok(st)
    else match Value(st, vs[0])
      case Ok(st') => ValuesFrom(st', vs[1..])
      case Err(m) => Err(m)
  }

  lemma {:induction false} ValuesIntoArray(st: BuilderState, items: seq<Node>, vs: seq<Node>)
    requires st.stack == [[]] && st.root == Array(items)
    ensures ValuesFrom(st, vs) == Ok(st.(root := Array(items + vs)))
    decreases |vs|
  {
    if |vs| > 0 {
      assert Value(st, vs[0]) == Ok(st.(root := Array(items + [vs[0]])));
      ValuesIntoArray(st.(root := Array(items + [vs[0]])), items + [vs[0]], vs[1..]);
      assert items + [vs[0]] + vs[1..] == items + vs;
    } else {
      assert items + vs == items;
    }
  }

  /** `StartArray()`, then `Value(v)` for each v of vs, `EndArray()` and `Build()` give the array vs. */
  lemma ArrayOfValues(vs: seq<Node>)
    ensures StartArray(Fresh()).Ok?
    ensures ValuesFrom(StartArray(Fresh()).value, vs).Ok?
    ensures var built := ValuesFrom(StartArray(Fresh()).value, vs).value;
      EndArray(built).Ok? && Build(EndArray(built).value) == Ok(Array(vs))
  {
    var st := StartArray(Fresh()).value;
    assert st == BuilderState(Array([]), [[]], [], false);
    ValuesIntoArray(st, [], vs);
    assert [] + vs == vs;
  }

  /** The entries of a dict built from pairs, each key keeping the value it was given first. */
  function FirstWins(entries: map<string, Node>, pairs: seq<(string, Node)>): map<string, Node>
    decreases |pairs|
  {
    if |pairs| == 0 then entries else FirstWins(Emplaced(entries, pairs[0].0, pairs[0].1), pairs[1..])
  }

  /** A key's value in `FirstWins` is the one it already had, or its first pair's value. */
  lemma {:induction false} FirstWinsKeepsFirst(entries: map<string, Node>, pairs: seq<(string, Node)>, i: nat)
    requires i < |pairs| && pairs[i].0 !in entries
    requires forall j :: 0 <= j < i ==> pairs[j].0 != pairs[i].0
    ensures pairs[i].0 in FirstWins(entries, pairs) && FirstWins(entries, pairs)[pairs[i].0] == pairs[i].1
    decreases |pairs|
  {
    if i == 0 {
      FirstWinsKeeps(Emplaced(entries, pairs[0].0, pairs[0].1), pairs[1..], pairs[0].0);
    } else {
      FirstWinsKeepsFirst(Emplaced(entries, pairs[0].0, pairs[0].1), pairs[1..], i - 1);
    }
  }

  /** A key already present keeps its value. */
  lemma {:induction false} FirstWinsKeeps(entries: map<string, Node>, pairs: seq<(string, Node)>, k: string)
    requires k in entries
    ensures k in FirstWins(entries, pairs) && FirstWins(entries, pairs)[k] == entries[k]
    decreases |pairs|
  {
    if |pairs| > 0 {
      FirstWinsKeeps(Emplaced(entries, pairs[0].0, pairs[0].1), pairs[1..], k);
    }
  }

  /** `Key(k)` then `Value(v)` for each pair (k, v) in turn. */
  function PairsFrom(st: BuilderState, pairs: seq<(string, Node)>): Result<BuilderState>
    decreases |pairs|
  {
    if |pairs| == 0 then Ok(st)
    else match Key(st, pairs[0].0)
      case Err(m) => Err(m)
      case Ok(st') =>
        match Value(st', pairs[0].1)
        case Ok(st'') => PairsFrom(st'', pairs[1..])
        case Err(m) => Err(m)
  }

  lemma {:induction false} PairsIntoDict(st: BuilderState, entries: map<string, Node>, pairs: seq<(string, Node)>)
    requires st.stack == [[]] && st.root == Dict(entries) && !st.isValue
    ensures PairsFrom(st, pairs).Ok?
    ensures var st' := PairsFrom(st, pairs).value;
      st'.stack == [[]] && st'.root == Dict(FirstWins(entries, pairs)) && !st'.isValue
    decreases |pairs|
  {
    if |pairs| > 0 {
      var (k, v) := pairs[0];
      var st1 := st.(key := k, isValue := true);
      assert Key(st, k) == Ok(st1);
      var st2 := st1.(root := Dict(Emplaced(entries, k, v)), isValue := false);
      assert Value(st1, v) == Ok(st2);
      PairsIntoDict(st2, Emplaced(entries, k, v), pairs[1..]);
    }
  }

  /**
   * `StartDict()`, then `Key(k).Value(v)` for each pair, `EndDict()` and `Build()` give the
   * dict of the pairs, where a repeated key keeps its first value.
   */
  lemma DictOfPairs(pairs: seq<(string, Node)>)
    ensures StartDict(Fresh()).Ok?
    ensures PairsFrom(StartDict(Fresh()).value, pairs).Ok?
    ensures var built := PairsFrom(StartDict(Fresh()).value, pairs).value;
      EndDict(built).Ok? && Build(EndDict(built).value) == Ok(Dict(FirstWins(map[], pairs)))
  {
    var st := StartDict(Fresh()).value;
    assert st == BuilderState(Dict(map[]), [[]], [], false);
    PairsIntoDict(st, map[], pairs);
  }
}
