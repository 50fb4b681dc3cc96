/**
 * The loosely typed values the products handler receives from the upstream
 * catalogue API after `JSON.parse`, together with the handful of JavaScript
 * operators the normaliser applies to them: optional property access `?.`,
 * truthiness, `||`, `??`, `== null` and `String(v)`.
 */
module JsValue {

  /**
   * A JavaScript value as it can occur in a parsed JSON payload, plus
   * `undefined` for a missing property. A number is held by the text that
   * `String(n)` gives for it (for example "19.9" or "4").
   */
  datatype Value =
    | Undefined
    | Null
    | Bool(b: bool)
    | Num(text: string)
    | Str(s: string)
    | Arr(items: seq<Value>)
    | Obj(fields: map<string, Value>)

  /** `v == null`: true of null and undefined only. */
  predicate IsNullish(v: Value) {
    v.Undefined? || v.Null?
  }

  /** JavaScript truthiness; `String(-0)` is "0", so "0" and "NaN" are the falsy numbers. */
  predicate Truthy(v: Value) {
    match v
    case Undefined => false
    case Null => false
    case Bool(b) => b
    case Num(t) => t != "0" && t != "NaN"
    case Str(s) => s != ""
    case Arr(_) => true
    case Obj(_) => true
  }

  /** `a || b`: the left operand when it is truthy, the right one otherwise. */
  function Or(a: Value, b: Value): Value {
    if Truthy(a) then a else b
  }

  /** `a ?? b`: the left operand unless it is null or undefined. */
  function Coalesce(a: Value, b: Value): Value {
    if IsNullish(a) then b else a
  }

  /**
   * `v?.[key]` for the property names the normaliser reads. Only an object
   * can own such a property; on null or undefined the chain short-circuits
   * to undefined, and strings, numbers, booleans and arrays have none of them.
   */
  function Get(v: Value, key: string): Value {
    match v
    case Obj(m) => if key in m then m[key] else Undefined
    case _ => Undefined
  }

  /** `v?.[0]`: the first element of an array, the first character of a string, property "0" of an object. */
  function First(v: Value): Value {
    match v
    case Arr(items) => if items == [] then Undefined else items[0]
    case Str(s) => if s == [] then Undefined else Str([s[0]])
    case Obj(_) => Get(v, "0")
    case _ => Undefined
  }

  /**
   * `String(v)`. An array prints as its elements joined by commas, with null
   * and undefined elements printing as nothing; a plain object prints as
   * "[object Object]". An object whose own `toString` key holds data, which
   * makes JavaScript throw here, is treated as a plain object.
   */
  function ToStr(v: Value): string
    decreases v, 0
  {
    match v
    case Undefined => "undefined"
    case Null => "null"
    case Bool(b) => if b then "true" else "false"
    case Num(t) => t
    case Str(s) => s
    case Arr(items) => JoinItems(items)
    case Obj(_) => "[object Object]"
  }

  /** `Array.prototype.join(",")` over the elements of an array. */
  function JoinItems(items: seq<Value>): string
    decreases items, 0
  {
    if items == [] then ""
    else if |items| == 1 then ItemStr(items[0])
    else JoinItems(items[..|items| - 1]) + "," + ItemStr(items[|items| - 1])
  }

  function ItemStr(x: Value): string
    decreases x, 1
  {
    if IsNullish(x) then "" else ToStr(x)
  }
}
