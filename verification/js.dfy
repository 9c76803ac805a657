/**
 * The JavaScript values that flow through request bodies and props, with the
 * truthiness the `||`, `&&` and `!` operators test and the string conversion
 * `String(v)` / template literals perform. Numbers are integral (see README).
 */
module Js {
  import opened Base
  import opened Numerals

  datatype JsValue =
    | Undefined
    | Null
    | Bool(b: bool)
    | Num(n: int)
    | NaN
    | Str(s: string)
      /** Any object (a `File`, an array, a record); `repr` is what `String(v)` gives for it. */
    | Obj(repr: string)

  /** ToBoolean: `false`, `0`, `NaN`, `""`, `null` and `undefined` are falsy. */
  predicate Truthy(v: JsValue) {
    match v
    case Undefined => false
    case Null => false
    case Bool(b) => b
    case Num(n) => n != 0
    case NaN => false
    case Str(s) => s != ""
    case Obj(_) => true
  }

  /** `a || b`. */
  function Or(a: JsValue, b: JsValue): JsValue {
    if Truthy(a) then a else b
  }

  /**
   * Properties every plain object inherits from `Object.prototype`; looking one
   * of them up on an object that lacks it as its own property yields a truthy
   * value: a function, or the prototype object itself for `__proto__`.
   */
  const PrototypeNames: set<string> := {
    "constructor", "hasOwnProperty", "isPrototypeOf", "propertyIsEnumerable",
    "toString", "toLocaleString", "valueOf", "__proto__",
    "__defineGetter__", "__defineSetter__", "__lookupGetter__", "__lookupSetter__"
  }

  /** `Number.MAX_SAFE_INTEGER`, 2^53 - 1. */
  const MaxSafeInteger: int := 0x1F_FFFF_FFFF_FFFF

  /**
   * An integer JavaScript holds exactly and prints digit for digit. Beyond it
   * `String(n)` keeps only the shortest digits that identify the double
   * (`String(2 ** 60)` is "1152921504606847000"), and from 10^21 it switches to
   * exponent form ("1e+21").
   */
  predicate IsSafeInteger(n: int) {
    -MaxSafeInteger <= n <= MaxSafeInteger
  }

  /** `String(v)`; a number is printed as its decimal digits, which JavaScript does for safe integers. */
  function ToStr(v: JsValue): string {
    match v
    case Undefined => "undefined"
    case Null => "null"
    case Bool(b) => if b then "true" else "false"
    case Num(n) => IntToString(n)
    case NaN => "NaN"
    case Str(s) => s
    case Obj(repr) => repr
  }

  /** `parseInt(v)`: the argument is converted to a string first; `NaN` when no digits lead. */
  function ParseIntValue(v: JsValue): (r: JsValue)
    ensures r.Num? || r.NaN?
  {
    match ParseInt(ToStr(v))
    case Some(n) => Num(n)
    case None => NaN
  }

  /** An optional string as JavaScript sees it: absent is `null`. */
  function OfOptional(o: Option<string>): JsValue {
    match o
    case None => Null
    case Some(s) => Str(s)
  }

  /** `parseInt` of a safe integer gives the number back. */
  lemma ParseIntOfNumber(n: int)
    requires IsSafeInteger(n)
    ensures ParseIntValue(Num(n)) == Num(n)
  {
    ParseIntRoundTrip(n);
  }
}
