/**
 * The JavaScript values the handlers read and produce: the JSON-representable ones.
 * A property that is absent (JavaScript `undefined`) is `None` wherever it is read.
 * Numbers are integral.
 */
module JsValue {
  import opened Wrappers
  import opened Strings

  datatype Value =
    | Null
    | Bool(b: bool)
    | Num(n: int)
    | Str(s: string)
    | Arr(items: seq<Value>)
    | Obj(fields: map<string, Value>)

  /** JavaScript truthiness: `null`, `false`, `0` and `''` are falsy. */
  predicate Truthy(v: Value) {
    match v
    case Null => false
    case Bool(b) => b
    case Num(n) => n != 0
    case Str(s) => |s| > 0
    case Arr(_) => true
    case Obj(_) => true
  }

  /** Truthiness of a value that may be `undefined`. */
  predicate TruthyOpt(o: Option<Value>) {
    o.Some? && Truthy(o.value)
  }

  /** `v[key]` on a value that is not `null`: only objects carry named properties here. */
  function Prop(v: Value, key: string): (r: Option<Value>)
    ensures r.Some? <==> v.Obj? && key in v.fields
  {
    if v.Obj? && key in v.fields then Some(v.fields[key]) else None
  }

  /** `x || null`. */
  function OrNull(o: Option<Value>): (r: Value)
    ensures Truthy(r) <==> TruthyOpt(o)
    ensures TruthyOpt(o) ==> r == o.value
  {
    if TruthyOpt(o) then o.value else Null
  }

  /** `String(v)`. */
  function ToStr(v: Value): string
    decreases v
  {
    match v
    case Null => "null"
    case Bool(b) => if b then "true" else "false"
    case Num(n) => IntToString(n)
    case Str(s) => s
    case Arr(items) =>
      Join(seq(|items|, i requires 0 <= i < |items| => if items[i].Null? then "" else ToStr(items[i])), ",")
    case Obj(_) => "[object Object]"
  }

  /** `String(x)` / `${x}` for a value that may be `undefined`; also the property key `x` names. */
  function ToStrOpt(o: Option<Value>): string {
    match o
    case None => "undefined"
    case Some(v) => ToStr(v)
  }
}
