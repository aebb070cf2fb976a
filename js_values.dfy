/** The JavaScript values a JSON request body can carry in one of its fields,
    and the two JavaScript operations the paint handler applies to them:
    `typeof` with a strict comparison, and truthiness. */
module JsValues {

  /** A field of a parsed JSON body. `Undefined` is a field the body does
      not have; `Ref` is an object or an array, which JavaScript compares by
      identity. Numbers are integral here (see README, "Left out"). */
  datatype JsValue =
    | Undefined
    | Null
    | Bool(b: bool)
    | Num(n: int)
    | Str(s: string)
    | Ref(id: nat)

  /** The string the `typeof` operator yields. */
  function TypeOf(v: JsValue): (r: string)
    ensures r in {"undefined", "object", "boolean", "number", "string"}
    ensures r == "undefined" <==> v.Undefined?
  {
    match v
    case Undefined => "undefined"
    case Null => "object"
    case Bool(_) => "boolean"
    case Num(_) => "number"
    case Str(_) => "string"
    case Ref(_) => "object"
  }

  /** JavaScript's `===`: primitives by value, objects by identity. */
  predicate StrictEquals(a: JsValue, b: JsValue) {
    a == b
  }

  /** The `typeof v === undefined` test: the left side is always a string,
      the right side the value `undefined`, so the comparison never holds,
      not even when `v` itself is undefined. */
  predicate TypeOfIsUndefinedValue(v: JsValue)
  {
    StrictEquals(Str(TypeOf(v)), Undefined)
  }

  lemma TypeOfNeverUndefinedValue(v: JsValue)
    ensures !TypeOfIsUndefinedValue(v)
  {
  }

  /** JavaScript truthiness: `undefined`, `null`, `false`, `0` and `""` are
      the falsy values a JSON field can hold; every object is truthy. */
  predicate Truthy(v: JsValue)
  {
    match v
    case Undefined => false
    case Null => false
    case Bool(b) => b
    case Num(n) => n != 0
    case Str(s) => s != ""
    case Ref(_) => true
  }
}
