/**
 * The `Builder` class of json_builder.h: it holds the root, the stack of open containers and
 * the pending key, and each of its methods updates them in place as the matching transition
 * of builder_spec.dfy does, leaving them untouched when it fails.
 */
module JsonBuilder {
  import opened Wrappers
  import opened Json
  import BuilderSpec

  /** `KeyWithFlag`: the last key given and whether it still waits for its value. */
  class KeyWithFlag {
    var value: string
    var isValue: bool

    constructor()
      ensures value == [] && !isValue
    {
      value := [];
      isValue := false;
    }

    /** `operator()`: store the key and mark it pending. */
    method Call(key: string)
      modifies this
      ensures value == key && isValue
    {
      value := key;
      isValue := true;
    }
  }

  class Builder {
    var root: Node
    var stack: seq<BuilderSpec.Path>
    const key: KeyWithFlag

    /** The fields as a `BuilderState`. */
    ghost function State(): BuilderSpec.BuilderState
      reads this, key
    {
      BuilderSpec.BuilderState(root, stack, key.value, key.isValue)
    }

    /** A new builder: a null root, an empty stack, no pending key. */
    constructor()
      ensures State() == BuilderSpec.Fresh() && fresh(key)
    {
      root := Null;
      stack := [];
      key := new KeyWithFlag();
    }

    /** The innermost open container as it now stands, if any. */
    function Top(): Option<Node>
      reads this
    {
      if stack == [] then None else BuilderSpec.NodeAt(root, stack[|stack| - 1])
    }

    method AddNewNodeContainer(node: Node) returns (added: bool)
      modifies this, key
      ensures var spec := BuilderSpec.AddNewNodeContainer(old(State()), node);
        if spec.Some? then added && State() == spec.value else !added && State() == old(State())
    {
      if stack == [] && root.Null? {
        root := node;
        stack := stack + [[]];
        return true;
      }
      if stack == [] {
        return false;
      }
      var top := stack[|stack| - 1];
      var container := Top();
      if container.Some? && container.value.Array? {
        var items := container.value.items;
        root := BuilderSpec.SetAt(root, top, Array(items + [node]));
        stack := stack + [top + [BuilderSpec.At(|items|)]];
        return true;
      }
      if container.Some? && container.value.Dict? && key.isValue {
        root := BuilderSpec.SetAt(root, top, Dict(BuilderSpec.Emplaced(container.value.entries, key.value, node)));
        key.isValue := false;
        stack := stack + [top + [BuilderSpec.Under(key.value)]];
        return true;
      }
      return false;
    }

    method StartDict() returns (r: Result<()>)
      modifies this, key
      ensures var spec := BuilderSpec.StartDict(old(State()));
        if spec.Ok? then r.Ok? && State() == spec.value else r == Err(spec.msg) && State() == old(State())
    {
      var added := AddNewNodeContainer(Dict(map[]));
      if added {
        return Ok(());
      }
      return Err("Start Dict unexpected in this context");
    }

    method EndDict() returns (r: Result<()>)
      modifies this
      ensures var spec := BuilderSpec.EndDict(old(State()));
        if spec.Ok? then r.Ok? && State() == spec.value else r == Err(spec.msg) && State() == old(State())
    {
      if stack == [] {
        return Err("Dict is not started, but you say End");
      }
      var container := Top();
      if container.Some? && container.value.Dict? && !key.isValue {
        stack := stack[..|stack| - 1];
        return Ok(());
      }
      return Err("Unexpected End of Dict");
    }

    method StartArray() returns (r: Result<()>)
      modifies this, key
      ensures var spec := BuilderSpec.StartArray(old(State()));
        if spec.Ok? then r.Ok? && State() == spec.value else r == Err(spec.msg) && State() == old(State())
    {
      var added := AddNewNodeContainer(Array([]));
      if added {
        return Ok(());
      }
      return Err("Start Array unexpected in this context");
    }

    method EndArray() returns (r: Result<()>)
      modifies this
      ensures var spec := BuilderSpec.EndArray(old(State()));
        if spec.Ok? then r.Ok? && State() == spec.value else r == Err(spec.msg) && State() == old(State())
    {
      if stack == [] {
        return Err("Array is not started, but you say End");
      }
      var container := Top();
      if container.Some? && container.value.Array? {
        stack := stack[..|stack| - 1];
        return Ok(());
      }
      return Err("Unexpected End of Array");
    }

    method Key(k: string) returns (r: Result<()>)
      modifies key
      ensures var spec := BuilderSpec.Key(old(State()), k);
        if spec.Ok? then r.Ok? && State() == spec.value else r == Err(spec.msg) && State() == old(State())
    {
      if stack == [] {
        return Err("Is not the Dict, but you tnter a Key");
      }
      var container := Top();
      if container.Some? && container.value.Dict? && !key.isValue {
        key.Call(k);
        return Ok(());
      }
      return Err("Key unexpected in this context");
    }

    method Value(value: Node) returns (r: Result<()>)
      modifies this, key
      ensures var spec := BuilderSpec.Value(old(State()), value);
        if spec.Ok? then r.Ok? && State() == spec.value else r == Err(spec.msg) && State() == old(State())
    {
      if stack == [] && root.Null? {
        root := value;
        return Ok(());
      }
      if stack == [] {
        return Err("Not have container from Value");
      }
      var top := stack[|stack| - 1];
      var container := Top();
      if container.Some? && container.value.Array? {
        root := BuilderSpec.SetAt(root, top, Array(container.value.items + [value]));
        return Ok(());
      }
      if container.Some? && container.value.Dict? && key.isValue {
        root := BuilderSpec.SetAt(root, top, Dict(BuilderSpec.Emplaced(container.value.entries, key.value, value)));
        key.isValue := false;
        return Ok(());
      }
      return Err("Value unexpected in this context");
    }

    /** `Build`: the root, once every container is closed and the root is set. */
    method Build() returns (r: Result<Node>)
      ensures r == BuilderSpec.Build(State())
      ensures r.Ok? <==> stack == [] && !root.Null?
      ensures r.Ok? ==> r.value == root
    {
      if stack != [] {
        return Err("Dict or Array is not ended");
      }
      if root.Null? {
        return Err("Empty Node");
      }
      return Ok(root);
    }
  }
}
