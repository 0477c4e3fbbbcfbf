/**
  The JavaScript values the environment handler inspects: what `JSON.parse`
  produces, plus `undefined`, which is what reading a missing property yields.
  Only the parts of JavaScript's semantics the handler relies on are modelled:
  truthiness (`if (v)`), `typeof` and `Array.isArray`.
 */
module JsValues {

  /** A JavaScript value of JSON origin, or `undefined`.
      Numbers are integers here (see README, "Left out"). */
  datatype Value =
    | Undefined
    | Null
    | Bool(b: bool)
    | Number(n: int)
    | Str(s: string)
    | Array(elems: seq<Value>)
    | Object(props: map<string, Value>)

  /** The five values of this model that JavaScript treats as false
      (`NaN` and `-0` are not distinct values here). */
  predicate Falsy(v: Value) {
    v == Undefined || v == Null || v == Bool(false) || v == Number(0) || v == Str("")
  }

  /** JavaScript's ToBoolean, as used by `if (v)`: decided per kind of value.
      Empty arrays and empty objects are truthy. */
  function Truthy(v: Value): (t: bool)
    ensures t <==> !Falsy(v)
    ensures v.Array? || v.Object? ==> t
  {
    match v
    case Undefined => false
    case Null => false
    case Bool(b) => b
    case Number(n) => n != 0
    case Str(s) => |s| > 0
    case Array(_) => true
    case Object(_) => true
  }

  /** The JavaScript `typeof` operator. `null` and arrays are both "object". */
  function TypeOf(v: Value): (t: string)
    ensures t == "string" <==> v.Str?
    ensures t == "boolean" <==> v.Bool?
    ensures t == "object" <==> v.Null? || v.Array? || v.Object?
    ensures t == "undefined" <==> v.Undefined?
  {
    match v
    case Undefined => "undefined"
    case Null => "object"
    case Bool(_) => "boolean"
    case Number(_) => "number"
    case Str(_) => "string"
    case Array(_) => "object"
    case Object(_) => "object"
  }

  /** `Array.isArray(v)`. */
  predicate IsArray(v: Value) {
    v.Array?
  }
}
