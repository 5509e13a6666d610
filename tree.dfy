/**
 * The values a nested mapping holds, and what each accessor of the mapping
 * does to them, stated as functions over a list of keys. The keys are the
 * pieces of a dotted path (module Paths); the class in module NestedDicts
 * runs the same walks as loops and is proved against these functions.
 */
module Tree {

  /** A Python value as it appears in parsed configuration data. */
  datatype Node =
    | Map(entries: map<string, Node>)
    | List(items: seq<Node>)
    | Str(text: string)
    | Int(number: int)
    | Bool(flag: bool)
    | Null

  /** The Python exceptions the accessors can raise. */
  datatype Error = KeyError | TypeError | AttributeError

  datatype Result<T> = Ok(value: T) | Err(error: Error)

  datatype Option<T> = None | Some(value: T)

  /** Python's `bool(x)` for the kinds of value above. */
  predicate Truthy(n: Node) {
    match n
    case Map(m) => m != map[]
    case List(s) => s != []
    case Str(t) => t != ""
    case Int(i) => i != 0
    case Bool(b) => b
    case Null => false
  }

  /**
   * How a walk down a list of keys ends: at a value, at a mapping that lacks
   * the next key, or at a value that is not a mapping while `pending` keys
   * (the current one included) are still to be followed.
   */
  datatype Lookup = Found(value: Node) | Missing | NotMapping(pending: nat)

  /** Follows `keys` from `n`, one mapping at a time. */
  function Walk(n: Node, keys: seq<string>): (r: Lookup)
    ensures r.NotMapping? ==> 1 <= r.pending <= |keys|
    decreases |keys|
  {
    if keys == [] then Found(n)
    else
      match n
      case Map(m) => if keys[0] in m then Walk(m[keys[0]], keys[1..]) else Missing
      case _ => NotMapping(|keys|)
  }

  /** `get(key, default)`: the value at the path, or `default` on any failure. */
  function Get(n: Node, keys: seq<string>, default: Node): Node {
    match Walk(n, keys)
    case Found(v) => v
    case _ => default
  }

  /** `key in d`: the whole path exists; never an error. */
  predicate Contains(n: Node, keys: seq<string>) {
    Walk(n, keys).Found?
  }

  /**
   * `d[key]`: the value at the path; Python's `None` when a mapping on the way
   * lacks the key; `KeyError` when the walk must go on from a non-mapping.
   */
  function GetItem(n: Node, keys: seq<string>): Result<Node> {
    match Walk(n, keys)
    case Found(v) => Ok(v)
    case Missing => Ok(Null)
    case NotMapping(_) => Err(KeyError)
  }

  /** The child under `k`, or the empty mapping the writers insert when it is absent. */
  function ChildOrEmpty(m: map<string, Node>, k: string): Node {
    if k in m then m[k] else Map(map[])
  }

  /**
   * `d[key] = v`: descends through the keys but the last, inserting `{}` for
   * every absent key, then stores `v` under the last key. Meeting a value that
   * is not a mapping is a `TypeError` (`k not in data`, `data[k]` and
   * `data[k] = ...` all reject a string key on strings, lists and scalars).
   */
  function Put(n: Node, keys: seq<string>, v: Node): (r: Result<Node>)
    requires |keys| >= 1
    ensures r.Ok? ==> r.value.Map?
    ensures r.Err? ==> r.error == TypeError
    decreases |keys|
  {
    match n
    case Map(m) =>
      if |keys| == 1 then Ok(Map(m[keys[0] := v]))
      else
        (match Put(ChildOrEmpty(m, keys[0]), keys[1..], v)
         case Ok(c) => Ok(Map(m[keys[0] := c]))
         case Err(e) => Err(e))
    case _ => Err(TypeError)
  }

  /**
   * `setdefault(key, v)`: the same descent as Put, then `dict.setdefault` on
   * the last mapping; the result is the new tree and the returned value. The
   * last container not being a mapping is an `AttributeError` (it has no
   * `setdefault`); a non-mapping met earlier is a `TypeError` as in Put.
   */
  function SetDefault(n: Node, keys: seq<string>, v: Node): (r: Result<(Node, Node)>)
    requires |keys| >= 1
    ensures r.Ok? ==> r.value.0.Map?
    ensures r.Err? ==> r.error != KeyError
    decreases |keys|
  {
    match n
    case Map(m) =>
      if |keys| == 1 then
        if keys[0] in m then Ok((n, m[keys[0]])) else Ok((Map(m[keys[0] := v]), v))
      else
        (match SetDefault(ChildOrEmpty(m, keys[0]), keys[1..], v)
         case Ok((c, w)) => Ok((Map(m[keys[0] := c]), w))
         case Err(e) => Err(e))
    case _ => Err(if |keys| == 1 then AttributeError else TypeError)
  }

  /** `dict.update(other)` on the root: a shallow merge where `other` wins. */
  function Merge(m: map<string, Node>, other: map<string, Node>): (r: map<string, Node>)
    ensures r.Keys == m.Keys + other.Keys
    ensures forall k :: k in other ==> r[k] == other[k]
    ensures forall k :: k in m && k !in other ==> r[k] == m[k]
  {
    m + other
  }

  /** `x` is `n` itself or sits somewhere inside it. */
  ghost predicate Occurs(x: Node, n: Node) {
    x == n ||
    match n
    case Map(m) => exists k :: k in m && Occurs(x, m[k])
    case List(s) => exists i :: 0 <= i < |s| && Occurs(x, s[i])
    case _ => false
  }
}
