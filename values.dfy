/** The JavaScript values a WHOIS reply is made of, with JavaScript truthiness and `String(v)`. */
module Values {
  import opened JsText

  /** A JSON-like value; objects are maps from property names to values. */
  datatype Value =
    | Null
    | Bool(b: bool)
    | Num(n: int)
    | Str(s: string)
    | Obj(fields: map<string, Value>)

  /** `if (v)`: `null`, `false`, `0` and `""` are falsy, every object is truthy. */
  predicate Truthy(v: Value)
  {
    match v
    case Null => false
    case Bool(b) => b
    case Num(n) => n != 0
    case Str(s) => s != ""
    case Obj(_) => true
  }

  /** `String(v)`. */
  function ToStr(v: Value): (r: string)
    ensures v.Str? ==> r == v.s
  {
    match v
    case Null => "null"
    case Bool(b) => if b then "true" else "false"
    case Num(n) => NumberToString(n)
    case Str(s) => s
    case Obj(_) => "[object Object]"
  }

  /** `obj[k]` is present and truthy, for an object `obj`. */
  predicate TruthyField(m: map<string, Value>, k: string)
  {
    k in m && Truthy(m[k])
  }
}
