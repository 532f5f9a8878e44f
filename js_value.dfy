/** JavaScript values as the request pipeline sees them, with JavaScript truthiness. */
module Js {
  /** A JSON-like JavaScript value; objects are their own enumerable properties. */
  datatype Value =
    | Undefined
    | Null
    | Bool(b: bool)
    | Num(n: real)
    | NaN
    | Str(s: string)
    | Arr(items: seq<Value>)
    | Obj(fields: map<string, Value>)

  /** JavaScript truthiness: `undefined`, `null`, `false`, `0`, `NaN` and `''` are falsy. */
  predicate Truthy(v: Value) {
    match v
    case Undefined => false
    case Null => false
    case Bool(b) => b
    case Num(n) => n != 0.0
    case NaN => false
    case Str(s) => s != ""
    case Arr(_) => true
    case Obj(_) => true
  }

  /** `typeof v === 'object'`: null, arrays and objects. */
  predicate TypeofObject(v: Value) {
    v.Null? || v.Arr? || v.Obj?
  }

  /** `key in v` for an object value (arrays carry no named keys here). */
  predicate HasKey(v: Value, key: string) {
    v.Obj? && key in v.fields
  }

  /** `v[key]`: the property, or `undefined` when there is none. */
  function Get(v: Value, key: string): (r: Value)
    ensures !HasKey(v, key) ==> r == Undefined
  {
    if HasKey(v, key) then v.fields[key] else Undefined
  }

  /** `a || b`. */
  function Or(a: Value, b: Value): Value {
    if Truthy(a) then a else b
  }
}
