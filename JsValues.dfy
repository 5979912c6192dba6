/** The JavaScript values the matching engine works on: the JSON-like values that
    JSON Logic rules, variable records and request bodies are made of, the
    JavaScript notions of truthiness and of "null or undefined" the code tests
    them with, and `String(v)`, `Math.round`. */
module JsValues {

  datatype Option<+T> = None | Some(value: T) {
    function GetOr(default: T): T {
      match this
      case Some(v) => v
      case None => default
    }
  }

  datatype Result<+T, +E> = Ok(value: T) | Err(error: E)

  /** A JavaScript value as it occurs in rules and variable records. Numbers are
      exact reals plus `NaN`; an object is its list of own enumerable entries in
      enumeration order. */
  datatype JsValue =
    | JNull
    | JBool(b: bool)
    | JNum(n: real)
    | JNaN
    | JStr(s: string)
    | JArr(items: seq<JsValue>)
    | JObj(entries: seq<(string, JsValue)>)

  /** A `Record<string, any>`; a key that is not in the map is `undefined`. */
  type Vars = map<string, JsValue>

  /** `Boolean(v)` */
  predicate Truthy(v: JsValue) {
    match v
    case JNull => false
    case JBool(b) => b
    case JNum(n) => n != 0.0
    case JNaN => false
    case JStr(s) => s != ""
    case JArr(_) => true
    case JObj(_) => true
  }

  /** `!vars[name]`: the name is undefined or holds a falsy value. */
  predicate Falsy(vars: Vars, name: string) {
    name !in vars || !Truthy(vars[name])
  }

  /** `vars[name] !== undefined && vars[name] !== null` */
  predicate Defined(vars: Vars, name: string) {
    name in vars && vars[name] != JNull
  }

  /** `String(v)`. How a finite number is printed (Number.prototype.toString)
      is the parameter `numberText`. */
  function ToJsString(v: JsValue, numberText: real -> string): string
    decreases v, 1
  {
    match v
    case JNull => "null"
    case JBool(b) => if b then "true" else "false"
    case JNum(n) => numberText(n)
    case JNaN => "NaN"
    case JStr(s) => s
    case JArr(items) => JoinedItems(items, numberText)
    case JObj(_) => "[object Object]"
  }

  /** `items.join(",")`, which prints `null` elements as the empty string. */
  function JoinedItems(items: seq<JsValue>, numberText: real -> string): string
    decreases items, 0
  {
    if items == [] then ""
    else
      var first := if items[0] == JNull then "" else ToJsString(items[0], numberText);
      if |items| == 1 then first else first + "," + JoinedItems(items[1..], numberText)
  }

  /** `Math.round(x)`: the nearest integer, halves rounded up. */
  function MathRound(x: real): (n: int)
    ensures x - 1.0 / 2.0 < n as real <= x + 1.0 / 2.0
  {
    (x + 1.0 / 2.0).Floor
  }

  /** `Math.round(x * 100) / 100`: x rounded to two decimals. */
  function Round2(x: real): (r: real)
    ensures x - 1.0 / 200.0 < r <= x + 1.0 / 200.0
    ensures 0.0 <= x <= 1.0 ==> 0.0 <= r <= 1.0
  {
    MathRound(x * 100.0) as real / 100.0
  }
}
