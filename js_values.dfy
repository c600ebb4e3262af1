/**
 * The JavaScript values the promise bridge and the polling session pass
 * around: what `if (err)` and `result && ...` treat as true, what
 * `instanceof Error` recognises, and what `new Error(v)` makes of a value.
 */
module JsValues {
  /**
   * A JavaScript value.  Numbers are integers here; an Error carries its
   * `name` ("Error", "TypeError", ...) and `message`; any other object (an
   * array, a plain object) carries its identity and the string its
   * `toString` gives: "" for an empty array, "R1" for ["R1"], "[object Object]"
   * for a plain object.
   */
  datatype JsValue =
    | Undefined
    | Null
    | Bool(b: bool)
    | Number(n: int)
    | Str(s: string)
    | ErrorObject(name: string, message: string)
    | Object(id: nat, str: string)

  /** ToBoolean: undefined, null, false, 0 and "" are falsy; every object is truthy. */
  predicate Truthy(v: JsValue): (b: bool)
    ensures !b <==> v == Undefined || v == Null || v == Bool(false) || v == Number(0) || v == Str("")
  {
    match v
    case Undefined => false
    case Null => false
    case Bool(b) => b
    case Number(n) => n != 0
    case Str(s) => s != ""
    case ErrorObject(_, _) => true
    case Object(_, _) => true
  }

  /** `v instanceof Error`. */
  predicate IsError(v: JsValue): (b: bool)
    ensures b ==> Truthy(v)
  {
    v.ErrorObject?
  }

  /** The number a string of decimal digits denotes, each character counting as its distance from '0'. */
  function DecimalValue(s: string): int {
    if s == [] then 0 else 10 * DecimalValue(s[..|s| - 1]) + (s[|s| - 1] as int - '0' as int)
  }

  /** The decimal digits of a natural number, most significant first, reading back as the number. */
  function DecimalDigits(n: nat): (s: string)
    ensures s != [] && forall k :: 0 <= k < |s| ==> '0' <= s[k] <= '9'
    ensures DecimalValue(s) == n
    ensures n > 0 ==> s[0] != '0'
  {
    var last := ['0' + (n % 10) as char];
    if n < 10 then last else DecimalDigits(n / 10) + last
  }

  /** String(v), the conversion `new Error(v)` applies to its argument. */
  function ToJsString(v: JsValue): (r: string)
    ensures v.Str? ==> r == v.s
    ensures v.Number? && v.n >= 0 ==> DecimalValue(r) == v.n
    ensures v.Number? && v.n < 0 ==> |r| >= 2 && r[0] == '-' && DecimalValue(r[1..]) == -v.n
    ensures v.ErrorObject? ==> (r == "" <==> v.name == "" && v.message == "")
    ensures v.Object? ==> r == v.str
    ensures v.Undefined? || v.Null? || v.Bool? || v.Number? ==> r != ""
  {
    match v
    case Undefined => "undefined"
    case Null => "null"
    case Bool(b) => if b then "true" else "false"
    case Number(n) => if n < 0 then "-" + DecimalDigits(-n) else DecimalDigits(n)
    case Str(s) => s
    case ErrorObject(name, message) =>
      if name == "" then message else if message == "" then name else name + ": " + message
    case Object(_, str) => str
  }

  /** `new Error(v)`: an Error whose message is String(v); an undefined argument leaves the message empty. */
  function NewError(v: JsValue): (e: JsValue)
    ensures IsError(e) && Truthy(e) && e.name == "Error"
    ensures v != Undefined ==> e.message == ToJsString(v)
  {
    ErrorObject("Error", if v == Undefined then "" else ToJsString(v))
  }
}
