/**
 The JavaScript values a JSON request body can carry into a handler, and the two
 value-level operators the handlers use on them: truthiness (`!x`, `x || y`) and
 the strict `undefined` test (`x !== undefined ? x : y`).
 */
module JsValues {

  /** A field of a decoded JSON body. `Undefined` is a key the body leaves out;
      JSON numbers are restricted to integers. */
  datatype JsVal = Undefined | Null | Str(s: string) | Num(n: int) | Bool(b: bool)

  /** ECMAScript ToBoolean on the values above. */
  predicate Truthy(v: JsVal) {
    match v
    case Undefined => false
    case Null => false
    case Str(s) => |s| > 0
    case Num(n) => n != 0
    case Bool(b) => b
  }

  /** The falsy values, listed one by one. */
  const FalsyValues: set<JsVal> := {Undefined, Null, Str(""), Num(0), Bool(false)}

  /** Truthiness agrees with the explicit list of falsy values: exactly five
      values count as "missing" for a required field. */
  lemma TruthyIffNotFalsy(v: JsVal)
    ensures Truthy(v) <==> v !in FalsyValues
  {
  }

  /** JavaScript `a || b`: the first operand when it is truthy, the second otherwise. */
  function Or(a: JsVal, b: JsVal): (r: JsVal)
    ensures r == a || r == b
    ensures Truthy(r) <==> Truthy(a) || Truthy(b)
    ensures Truthy(a) ==> r == a
    ensures !Truthy(a) ==> r == b
  {
    if Truthy(a) then a else b
  }

  /** JavaScript `given !== undefined ? given : stored`. */
  function Override(given: JsVal, stored: JsVal): (r: JsVal)
    ensures r == given || r == stored
    ensures given != Undefined ==> r == given
    ensures given == Undefined ==> r == stored
    ensures given == Null ==> r == Null
  {
    if given != Undefined then given else stored
  }

  /** `x || null` turns every falsy value into `null` and keeps every truthy one. */
  lemma OrNullNormalises(v: JsVal)
    ensures Truthy(v) ==> Or(v, Null) == v
    ensures !Truthy(v) ==> Or(v, Null) == Null
    ensures Or(v, Null) == Null <==> v in FalsyValues
  {
  }
}
