/** The parsed JSON documents (serde_json::Value) that the tool reads from the GitHub API. */
module JsonValue {
  import opened Wrappers

  /** Rust's i64. */
  newtype i64 = x: int | -0x8000_0000_0000_0000 <= x < 0x8000_0000_0000_0000

  /**
   * A JSON value. Integers keep their mathematical value (serde_json stores
   * them as i64 or u64); an object keeps its members in iteration order.
   */
  datatype Json =
    | Null
    | Bool(b: bool)
    | Int(i: int)
    | Float(f: real)
    | Str(s: string)
    | Arr(items: seq<Json>)
    | Obj(fields: seq<(string, Json)>)

  /** Value::as_i64: the integer when it fits in an i64. */
  function AsI64(v: Json): (r: Option<i64>)
    ensures r.Some? <==> v.Int? && -0x8000_0000_0000_0000 <= v.i < 0x8000_0000_0000_0000
    ensures r.Some? ==> r.value as int == v.i
  {
    if v.Int? && -0x8000_0000_0000_0000 <= v.i < 0x8000_0000_0000_0000 then Some(v.i as i64) else None
  }

  /** Value::as_str. */
  function AsStr(v: Json): Option<string>
  {
    if v.Str? then Some(v.s) else None
  }

  /** The first member named `key` at or after position `j`. */
  function LookupFrom(fields: seq<(string, Json)>, j: nat, key: string): (r: Option<Json>)
    requires j <= |fields|
    decreases |fields| - j
    ensures r.None? <==> forall a :: j <= a < |fields| ==> fields[a].0 != key
    ensures r.Some? ==> exists a :: j <= a < |fields| && fields[a].0 == key && fields[a].1 == r.value
  {
    if j == |fields| then None
    else if fields[j].0 == key then Some(fields[j].1)
    else LookupFrom(fields, j + 1, key)
  }

  /** Value::get with a string index: a member of an object, None for anything else. */
  function Get(v: Json, key: string): Option<Json>
  {
    if v.Obj? then LookupFrom(v.fields, 0, key) else None
  }

  /** Member names are pairwise distinct, as in every serde_json Map. */
  predicate DistinctKeys(fields: seq<(string, Json)>)
  {
    forall a, b :: 0 <= a < b < |fields| ==> fields[a].0 != fields[b].0
  }

  /** With distinct names, the lookup finds the one member that carries the name. */
  lemma LookupUnique(fields: seq<(string, Json)>, j: nat, a: nat, key: string)
    requires DistinctKeys(fields)
    requires j <= a < |fields| && fields[a].0 == key
    ensures LookupFrom(fields, j, key) == Some(fields[a].1)
  {
    assert fields[a].0 == key;
  }
}
