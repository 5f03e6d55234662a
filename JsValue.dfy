/** JSON values as `JSON.parse` produces them, and the two pieces of JavaScript semantics the
    worker relies on when it inspects them: property access and truthiness. */
module JsValue {
  import opened Wrappers

  /** A parsed JSON value. Object members are kept in source order, duplicates included. */
  datatype Json =
    | Null
    | Bool(b: bool)
    | Number(n: real)
    | Str(s: string)
    | Array(items: seq<Json>)
    | Object(members: seq<(string, Json)>)

  /** The outcome of a JavaScript expression that may throw a `TypeError`. */
  datatype Outcome<T> = Ok(value: T) | TypeError

  /** The value `JSON.parse` gives to `key`: the last member with that key wins. */
  function Lookup(members: seq<(string, Json)>, key: string): (r: Option<Json>)
    ensures r.Some? ==> exists i :: 0 <= i < |members| && members[i] == (key, r.value)
                          && forall j :: i < j < |members| ==> members[j].0 != key
    ensures r.None? ==> forall i :: 0 <= i < |members| ==> members[i].0 != key
    decreases |members|
  {
    if members == [] then None
    else
      var last := members[|members| - 1];
      if last.0 == key then Some(last.1)
      else Lookup(members[..|members| - 1], key)
  }

  /** `v[key]` for a string key that names no built-in property: a `TypeError` on `null`,
      the member on an object, `undefined` (here `None`) on every other value. */
  function Get(v: Json, key: string): (r: Outcome<Option<Json>>)
    ensures r.TypeError? <==> v.Null?
    ensures v.Object? ==> r == Ok(Lookup(v.members, key))
    ensures !v.Null? && !v.Object? ==> r == Ok(None)
  {
    match v
    case Null => TypeError
    case Object(members) => Ok(Lookup(members, key))
    case _ => Ok(None)
  }

  /** JavaScript truthiness of a value that may be `undefined` (`None`). */
  predicate Truthy(v: Option<Json>) {
    match v
    case None => false
    case Some(Null) => false
    case Some(Bool(b)) => b
    case Some(Number(n)) => n != 0.0
    case Some(Str(s)) => s != []
    case Some(Array(_)) => true
    case Some(Object(_)) => true
  }

  /** Arrays and objects are truthy even when empty; `null` and `undefined` never are. */
  lemma TruthyContainers(v: Option<Json>)
    ensures v.Some? && (v.value.Array? || v.value.Object?) ==> Truthy(v)
    ensures v.None? || v.value.Null? ==> !Truthy(v)
  {
  }

  /** A later duplicate key hides an earlier one, as in `JSON.parse`. */
  lemma {:induction false} LookupLastWins(members: seq<(string, Json)>, key: string, v: Json, rest: seq<(string, Json)>)
    requires forall i :: 0 <= i < |rest| ==> rest[i].0 != key
    ensures Lookup(members + [(key, v)] + rest, key) == Some(v)
    decreases |rest|
  {
    var all := members + [(key, v)] + rest;
    if rest != [] {
      var shorter := rest[..|rest| - 1];
      assert all[..|all| - 1] == members + [(key, v)] + shorter;
      LookupLastWins(members, key, v, shorter);
    }
  }
}
