/**
 * The statistics API's response body after JSON decoding: an object whose
 * `success` and `results` members may each be absent.
 */
module Payload {
  import opened Wrappers

  /** A decoded JSON value; numbers are kept as exact reals */
  datatype Value =
    | Null
    | Bool(b: bool)
    | Number(x: real)
    | Str(s: string)
    | Array(items: seq<Value>)
    | Object(members: map<string, Value>)

  /** Python's `bool(v)` for a decoded JSON value: null, false, zero and empty containers are false */
  predicate Truthy(v: Value) {
    match v
    case Null => false
    case Bool(b) => b
    case Number(x) => x != 0.0
    case Str(s) => |s| > 0
    case Array(items) => |items| > 0
    case Object(members) => |members| > 0
  }

  /** One element of `results`: field name to non-negative integer value */
  type Row = map<string, nat>

  /** The top-level object; `None` stands for a missing key */
  datatype Body = Body(success: Option<Value>, results: Option<seq<Row>>)
}
