/**
 * A parsed JSON value, as `JSON.parse` hands it to the parser. An object is its
 * list of members in key order; the parser it stands for never gives two members
 * the same key, and a lookup takes the first member with the key.
 */
module JsonValue {
  import opened Wrappers

  datatype Json =
    | JNull
    | JBool(b: bool)
    | JNum(n: real)
    | JStr(s: string)
    | JArr(elems: seq<Json>)
    | JObj(members: seq<Member>)

  datatype Member = Member(key: string, value: Json)

  /** The value of the first member named `key`, if any. */
  function Field(members: seq<Member>, key: string): (r: Option<Json>)
    ensures r.Some? <==> exists i | 0 <= i < |members| :: members[i].key == key
    ensures r.Some? ==> exists i | 0 <= i < |members| :: members[i] == Member(key, r.value)
  {
    if members == [] then None
    else if members[0].key == key then Some(members[0].value)
    else Field(members[1..], key)
  }

  /** JavaScript's `x?.[key]` on a parsed value: only an object has named members
    * (an array's or a string's `key` is `undefined` for every key the parser reads). */
  function Get(x: Option<Json>, key: string): Option<Json> {
    if x.Some? && x.value.JObj? then Field(x.value.members, key) else None
  }

  /** The string at `x?.[key]`, if it is one (`typeof x?.[key] === "string"`). */
  function GetString(x: Option<Json>, key: string): Option<string> {
    var v := Get(x, key);
    if v.Some? && v.value.JStr? then Some(v.value.s) else None
  }

  /** JavaScript truthiness of a parsed value: `null`, `false`, `0` and `""` are falsy. */
  predicate Truthy(x: Json) {
    match x
    case JNull => false
    case JBool(b) => b
    case JNum(n) => n != 0.0
    case JStr(s) => s != ""
    case _ => true
  }
}
