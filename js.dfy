/**
 * The slice of JavaScript's value model that the client store depends on:
 * the values a form field, an id or an API payload can hold, and the
 * truthiness rules behind `!!x`, `x || y` and `x !== null && x !== undefined`.
 */
module Js {

  /** A JavaScript value. Objects (a File, a user record) are opaque references. */
  datatype Value =
    | Undefined
    | Null
    | Bool(b: bool)
    | Num(n: real)
    | Str(s: string)
    | Object(ref: nat)

  /** ECMAScript ToBoolean: false, 0, "", null and undefined are falsy; every object is truthy. */
  predicate Truthy(v: Value)
  {
    match v
    case Undefined => false
    case Null => false
    case Bool(b) => b
    case Num(n) => n != 0.0
    case Str(s) => s != ""
    case Object(_) => true
  }

  /** The outcome of an awaited API call: its response data, or the rejected error's message. */
  datatype ApiResult<+T> = Ok(data: T) | Err(message: string)

  /** `v === null || v === undefined`. */
  predicate Nullish(v: Value)
  {
    v.Undefined? || v.Null?
  }

  /** `obj.key` on a plain object: a missing property reads as undefined. */
  function Get(obj: map<string, Value>, key: string): Value
  {
    if key in obj then obj[key] else Undefined
  }

}
