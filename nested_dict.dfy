/**
 * The dotted-path accessor over nested mappings. The object holds one root
 * value; every accessor splits its key on "." and walks down the root one
 * key at a time, as the loops below do. Nested mappings are values here:
 * where the accessor changes a nested mapping in place, the methods record
 * the mappings they passed on the way down and rebuild them on the way up.
 */
module NestedDicts {
  import opened Tree
  import opened Paths
  import TreeFacts

  /**
   * `spine` lists the mappings a writer passed through while following the
   * first `|spine|` keys from `root`, each as it reads after `{}` was
   * inserted for an absent key; `node` is where the last step led.
   */
  ghost predicate Linked(root: Node, keys: seq<string>, spine: seq<map<string, Node>>, node: Node) {
    && |spine| < |keys|
    && Level(spine, node, 0) == root
    && forall j :: 0 <= j < |spine| ==> ChildOrEmpty(spine[j], keys[j]) == Level(spine, node, j + 1)
  }

  /** The value at depth `j` of a descent: a recorded mapping, or where the descent stands. */
  ghost function Level(spine: seq<map<string, Node>>, node: Node, j: nat): Node
    requires j <= |spine|
  {
    if j < |spine| then Map(spine[j]) else node
  }

  /**
   * The descent shared by `d[key] = v` and `setdefault`: follows every key
   * but the last, taking `{}` for an absent key. It stops early at a value
   * that is not a mapping. Unless a key was absent, the walk along all the
   * keys ends as the walk from `node` along those not yet followed; if one
   * was absent, `node` is the empty mapping and the walk ends at a missing key.
   */
  method Descend(root: Node, keys: seq<string>) returns (spine: seq<map<string, Node>>, node: Node)
    requires |keys| >= 1
    ensures Linked(root, keys, spine, node)
    ensures |spine| < |keys| - 1 ==> !node.Map?
    ensures || Walk(root, keys) == Walk(node, keys[|spine|..])
            || (node == Map(map[]) && Walk(root, keys) == Missing)
  {
    spine, node := [], root;
    while |spine| < |keys| - 1
      invariant Linked(root, keys, spine, node)
      invariant || Walk(root, keys) == Walk(node, keys[|spine|..])
                || (node == Map(map[]) && Walk(root, keys) == Missing)
    {
      if !node.Map? {
        return;
      }
      var k := keys[|spine|];
      assert keys[|spine|..][1..] == keys[|spine| + 1..];
      ghost var above, prev := spine, node;
      spine, node := spine + [node.entries], ChildOrEmpty(node.entries, k);
      forall j | 0 <= j < |spine|
        ensures ChildOrEmpty(spine[j], keys[j]) == Level(spine, node, j + 1)
      {
        if j < |above| {
          assert spine[j] == above[j] && ChildOrEmpty(above[j], keys[j]) == Level(above, prev, j + 1);
        }
      }
    }
  }

  /**
   * Stores `value` under the last key in the mapping `node` the descent
   * reached and rebuilds the mappings on the way back up: the result is the
   * tree that `d[key] = value` leaves behind.
   */
  method Rebuild(root: Node, keys: seq<string>, spine: seq<map<string, Node>>, node: Node, value: Node)
    returns (tree: Node)
    requires |keys| >= 1 && |spine| == |keys| - 1 && node.Map?
    requires Linked(root, keys, spine, node)
    ensures Put(root, keys, value) == Ok(tree)
  {
    var j := |spine|;
    tree := Map(node.entries[keys[j] := value]);
    while j > 0
      invariant 0 <= j <= |spine|
      invariant Put(Level(spine, node, j), keys[j..], value) == Ok(tree)
    {
      j := j - 1;
      assert keys[j..][0] == keys[j] && keys[j..][1..] == keys[j + 1..];
      assert ChildOrEmpty(spine[j], keys[j]) == Level(spine, node, j + 1);
      tree := Map(spine[j][keys[j] := tree]);
    }
  }

  class NestedDict {
    /** `self._data`: a mapping, unless `fill("")` stored something else. */
    var root: Node

    /** `NestedDict(data)`: the given mapping, or a new empty one for `None`. */
    constructor (data: Option<map<string, Node>>)
      ensures data.Some? ==> root == Map(data.value)
      ensures data.None? ==> root == Map(map[])
    {
      root := if data.Some? then Map(data.value) else Map(map[]);
    }

    /** `d[item]`. */
    method GetItem(item: string) returns (r: Result<Node>)
      ensures r == Tree.GetItem(root, Split(item))
    {
      var keys := Split(item);
      var data := root;
      var i := 0;
      while i < |keys|
        invariant i <= |keys|
        invariant Walk(root, keys) == Walk(data, keys[i..])
      {
        if !data.Map? {
          return Err(KeyError);
        }
        if keys[i] !in data.entries {
          return Ok(Null);
        }
        assert keys[i..][1..] == keys[i + 1..];
        data := data.entries[keys[i]];
        i := i + 1;
      }
      return Ok(data);
    }

    /** `d.get(key, default)`. */
    method Get(key: string, default: Node := Null) returns (r: Node)
      ensures r == Tree.Get(root, Split(key), default)
    {
      var keys := Split(key);
      var data := root;
      for i := 0 to |keys|
        invariant Walk(root, keys) == Walk(data, keys[i..])
      {
        if !data.Map? || keys[i] !in data.entries {
          return default;
        }
        assert keys[i..][1..] == keys[i + 1..];
        data := data.entries[keys[i]];
      }
      return data;
    }

    /** `item in d`. */
    method Contains(item: string) returns (b: bool)
      ensures b == Tree.Contains(root, Split(item))
    {
      var keys := Split(item);
      var data := root;
      for i := 0 to |keys|
        invariant Walk(root, keys) == Walk(data, keys[i..])
      {
        if !data.Map? || keys[i] !in data.entries {
          return false;
        }
        assert keys[i..][1..] == keys[i + 1..];
        data := data.entries[keys[i]];
      }
      return true;
    }

    /** `bool(d)`: false exactly for an empty root mapping (Python truthiness in general). */
    method IsTruthy() returns (b: bool)
      ensures b == Truthy(root)
      ensures root.Map? ==> (b <==> |root.entries| > 0)
    {
      match root
      case Map(m) => b := |m| != 0;
      case List(s) => b := |s| != 0;
      case Str(t) => b := |t| != 0;
      case Int(i) => b := i != 0;
      case Bool(f) => b := f;
      case Null => b := false;
    }

    /**
     * `d[key] = value`. On success the path holds `value`, every proper
     * prefix holds a mapping, and the root is what Put computes; on a
     * non-mapping along the way it raises `TypeError` and changes nothing.
     */
    method SetItem(key: string, value: Node) returns (r: Result<()>)
      modifies this
      ensures var put := Put(old(root), Split(key), value);
        if put.Ok? then r == Ok(()) && root == put.value
        else r == Err(TypeError) && root == old(root)
      ensures r.Ok? ==> Walk(root, Split(key)) == Found(value)
    {
      var keys := Split(key);
      var spine, node := Descend(root, keys);
      if |spine| < |keys| - 1 || !node.Map? {
        TreeFacts.PutFailsIffNotMapping(root, keys, value);
        return Err(TypeError);
      }
      var tree := Rebuild(root, keys, spine, node, value);
      TreeFacts.ReadAfterPut(root, keys, value);
      root := tree;
      return Ok(());
    }

    /**
     * `d.setdefault(key, value)`: on an existing path returns the stored
     * value and changes nothing; otherwise stores `value` as `d[key] = value`
     * would and returns it; raises as the function SetDefault says.
     */
    method SetDefault(key: string, value: Node) returns (r: Result<Node>)
      modifies this
      ensures var sd := Tree.SetDefault(old(root), Split(key), value);
        if sd.Ok? then r == Ok(sd.value.1) && root == sd.value.0
        else r == Err(sd.error) && root == old(root)
      ensures Tree.Contains(old(root), Split(key)) ==>
        r == Ok(Tree.Get(old(root), Split(key), value)) && root == old(root)
    {
      var keys := Split(key);
      var last := keys[|keys| - 1];
      var spine, node := Descend(root, keys);
      if |spine| < |keys| - 1 || !node.Map? {
        TreeFacts.SetDefaultNotMapping(root, keys, value);
        return Err(if |spine| < |keys| - 1 then TypeError else AttributeError);
      }
      if last in node.entries {
        TreeFacts.SetDefaultFound(root, keys, value);
        return Ok(node.entries[last]);
      }
      TreeFacts.SetDefaultMissing(root, keys, value);
      var tree := Rebuild(root, keys, spine, node, value);
      root := tree;
      return Ok(value);
    }

    /**
     * `d.update(other)`: every top-level key of `other` now maps to its value
     * there, the other top-level keys keep theirs; a root that is not a
     * mapping has no `update` and raises `AttributeError`.
     */
    method Update(other: map<string, Node>) returns (r: Result<()>)
      modifies this
      ensures old(root).Map? ==> r == Ok(()) && root == Map(Merge(old(root).entries, other))
      ensures !old(root).Map? ==> r == Err(AttributeError) && root == old(root)
    {
      if !root.Map? {
        return Err(AttributeError);
      }
      root := Map(Merge(root.entries, other));
      return Ok(());
    }

    /**
     * `d.fill(path)`: hands the value at `path` (the whole root for "") to
     * the template filler together with the root, and writes the filled value
     * back. A falsy value is left alone and gives `None`; a `KeyError` from
     * reading the path propagates. The filler is a parameter: it stands for
     * `fill_data`, which this model does not open, as a pure function that
     * reads the root it is given and cannot change it.
     */
    method Fill(filler: (Node, Node, string) -> Node, path: string := "") returns (r: Result<Option<Node>>)
      modifies this
      ensures path == "" ==>
        if Truthy(old(root)) then
          root == filler(old(root), old(root), path) && r == Ok(Some(root))
        else
          root == old(root) && r == Ok(None)
      ensures path != "" ==>
        var item := Tree.GetItem(old(root), Split(path));
        if item.Err? then
          r == Err(item.error) && root == old(root)
        else if !Truthy(item.value) then
          r == Ok(None) && root == old(root)
        else
          var filled := filler(item.value, old(root), path);
          && r == Ok(Some(filled))
          && Put(old(root), Split(path), filled) == Ok(root)
          && Tree.Get(root, Split(path), Null) == filled
    {
      var value: Node;
      if path == "" {
        value := root;
      } else {
        var item := GetItem(path);
        if item.Err? {
          return Err(item.error);
        }
        value := item.value;
      }
      if !Truthy(value) {
        return Ok(None);
      }
      var filled := filler(value, root, path);
      if path == "" {
        root := filled;
      } else {
        TreeFacts.PutFailsIffNotMapping(root, Split(path), filled);
        var written := SetItem(path, filled);
        assert written.Ok?;
      }
      return Ok(Some(filled));
    }
  }
}
