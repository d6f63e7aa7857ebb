/**
 * JSON-like values as the pipeline script sees them after `json.loads`:
 * Python `None`, `bool`, `int`, `str`, `list` and `dict`. A `dict` keeps its
 * insertion order, so an object is a sequence of key/value members.
 */
module JsonTree {

  datatype Option<+T> = None | Some(value: T)

  datatype Json =
    | Null
    | Bool(b: bool)
    | Int(n: int)
    | Str(s: string)
    | List(items: seq<Json>)
    | Object(members: seq<(string, Json)>)

  /** The Python type name of a value, as `type(v).__name__` would print it. */
  function TypeName(j: Json): string
  {
    match j
    case Null => "NoneType"
    case Bool(_) => "bool"
    case Int(_) => "int"
    case Str(_) => "str"
    case List(_) => "list"
    case Object(_) => "dict"
  }

  /** Neither a list nor a dict: the values `sanitize_payload` hands back untouched. */
  predicate IsScalar(j: Json)
  {
    !j.List? && !j.Object?
  }

  /** The keys of a dict, in insertion order. */
  function Keys(members: seq<(string, Json)>): (ks: seq<string>)
    ensures |ks| == |members|
    ensures forall i :: 0 <= i < |members| ==> ks[i] == members[i].0
  {
    seq(|members|, i requires 0 <= i < |members| => members[i].0)
  }

  /** A real Python dict never holds the same key twice. */
  predicate DistinctKeys(members: seq<(string, Json)>)
  {
    forall i, k :: 0 <= i < k < |members| ==> members[i].0 != members[k].0
  }

  /** Every dict inside the value has distinct keys. */
  predicate WellFormed(j: Json)
  {
    match j
    case List(items) => forall i :: 0 <= i < |items| ==> WellFormed(items[i])
    case Object(members) =>
      DistinctKeys(members) && forall i :: 0 <= i < |members| ==> WellFormed(members[i].1)
    case _ => true
  }

  /**
   * `d.get(key)` on a dict: the value stored under `key`, or nothing. The
   * first member with that key is the one found; in a dict with distinct keys
   * it is the only one.
   */
  function Get(members: seq<(string, Json)>, key: string): (r: Option<Json>)
    ensures r.None? <==> forall i :: 0 <= i < |members| ==> members[i].0 != key
    ensures r.Some? ==> exists i :: 0 <= i < |members| && members[i] == (key, r.value) &&
                                   forall m :: 0 <= m < i ==> members[m].0 != key
  {
    if members == [] then None
    else if members[0].0 == key then Some(members[0].1)
    else Get(members[1..], key)
  }

  /** `d.get(key, default)`. */
  function GetOr(members: seq<(string, Json)>, key: string, default: Json): (r: Json)
    ensures key in Keys(members) ==> Get(members, key) == Some(r)
    ensures key !in Keys(members) ==> r == default
  {
    match Get(members, key)
    case Some(v) => v
    case None => default
  }
}
