/** The JavaScript values a transformer may produce and the result mapping
    holds, with JavaScript's truthiness and its `||` operator. */
module JsValue {

  /** `Num` holds integer numbers only (years, episode numbers, ...). */
  datatype Value =
    | Undefined
    | Null
    | Bool(b: bool)
    | Num(n: int)
    | Str(s: string)
    | Arr(items: seq<Value>)

  /** JavaScript's ToBoolean: `undefined`, `null`, `false`, `0` and `""` are falsy;
      every array is truthy. */
  predicate Truthy(v: Value) {
    match v
    case Undefined => false
    case Null => false
    case Bool(b) => b
    case Num(n) => n != 0
    case Str(s) => s != []
    case Arr(_) => true
  }

  /** The result mapping from field name to extracted value. */
  type Fields = map<string, Value>

  /** `m[k]`: `undefined` for a missing key. */
  function Get(m: Fields, k: string): (v: Value)
    ensures k in m ==> v == m[k]
    ensures k !in m ==> v == Undefined && !Truthy(v)
  {
    if k in m then m[k] else Undefined
  }

  /** `a || b`. */
  function Or(a: Value, b: Value): (r: Value)
    ensures Truthy(r) <==> Truthy(a) || Truthy(b)
    ensures r == a || r == b
    ensures Truthy(a) ==> r == a
    ensures !Truthy(a) ==> r == b
  {
    if Truthy(a) then a else b
  }
}
