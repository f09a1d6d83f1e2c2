/**
  An already-parsed JSON document, as the rule loader receives it from the JSON library.
  Only the shape matters to the loader: it asks whether a value is an object, an array or a
  string, whether an object has a member, and reads strings.
 */
module Json {

  datatype Json =
    | Null
    | Boolean(b: bool)
    | Number(n: int)
    | Str(s: string)
    | Array(elems: seq<Json>)
    | Object(members: map<string, Json>)

  /** The library's `contains(key)`: true only for an object that has that member. */
  predicate Contains(j: Json, key: string) {
    j.Object? && key in j.members
  }
}
