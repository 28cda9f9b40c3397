/** The JSON-shaped values the payload synthesizer builds and the request
    panel sends. Objects are maps: the insertion order of keys is not kept.
    Numbers are integers: fractions and exponents have no value here. */
module JsonValue {

  datatype Json =
    | JNull
    | JBool(b: bool)
    | JNumber(n: int)
    | JString(s: string)
    | JArray(items: seq<Json>)
    | JObject(members: map<string, Json>)

  const EmptyObject: Json := JObject(map[])

  /** Objects nest at most `n` deep in `j` (arrays add no level). */
  predicate NestedWithin(j: Json, n: nat)
    decreases n, j
  {
    match j
    case JObject(m) => n > 0 && forall k :: k in m ==> NestedWithin(m[k], n - 1)
    case JArray(items) => forall i :: 0 <= i < |items| ==> NestedWithin(items[i], n)
    case _ => true
  }
}
