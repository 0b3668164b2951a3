/**
 * The decoded value tree (`JsonValue` in json.h): a closed variant of null,
 * boolean, 64-bit integer, double, string, array and object.
 */
module Json {
  import opened Ascii

  /**
   * `Integer` holds a mathematical integer (the source's `long`); `Double`
   * keeps the token that `stringstream >> double` would convert, because
   * floating point is not modelled. An object is a `std::map`, so each key
   * occurs once.
   */
  datatype JsonValue =
    | Null
    | Boolean(b: bool)
    | Integer(i: int)
    | Double(token: Text)
    | String(s: Text)
    | Array(items: seq<JsonValue>)
    | Object(members: map<Text, JsonValue>)
}
