/** The values a cJSON tree stands for. */
module JsonValue {
  import opened CText

  /**
   The type tags of cJSON. A number is its `valuedouble`, taken as an exact
   real; `valueint` is determined by it.
   */
  datatype Json =
    | Null
    | False
    | True
    | Number(value: real)
    | String(text: seq<byte>)
    | Array(items: seq<Json>)
    | Object(members: seq<Member>)

  datatype Member = Member(name: seq<byte>, value: Json)

  /** The values of the children, whether they are items or members. */
  function KidValues(v: Json): seq<Json> {
    match v
    case Array(items) => items
    case Object(ms) => seq(|ms|, j requires 0 <= j < |ms| => ms[j].value)
    case _ => []
  }

  const INT_MIN := -0x8000_0000
  const INT_MAX := 0x7FFF_FFFF

  /** The numbers `print_number` renders with `%d`. */
  predicate IsInt32(d: real) {
    d == d.Floor as real && INT_MIN <= d.Floor <= INT_MAX
  }

  predicate IntegersOnly(v: Json) {
    match v
    case Number(d) => IsInt32(d)
    case Array(items) => forall i :: 0 <= i < |items| ==> IntegersOnly(items[i])
    case Object(ms) => forall i :: 0 <= i < |ms| ==> IntegersOnly(ms[i].value)
    case _ => true
  }

  /** Trees of 32-bit integers and NUL-free strings and names. */
  predicate Printable(v: Json) {
    match v
    case Number(d) => IsInt32(d)
    case String(s) => NulFree(s)
    case Array(items) => forall i :: 0 <= i < |items| ==> Printable(items[i])
    case Object(ms) => forall i :: 0 <= i < |ms| ==> NulFree(ms[i].name) && Printable(ms[i].value)
    case _ => true
  }
}
