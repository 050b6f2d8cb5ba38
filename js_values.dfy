/** The JavaScript values a request body can carry, the parts of the
    language the note store relies on (truthiness, `typeof`, property
    read, object spread), and plain objects as finite maps. */
module JsValues {

  /** A dynamically typed JavaScript value. Numbers are kept to integers;
      arrays and other objects are all `Obj`. */
  datatype Value = Undefined | Null | Str(s: string) | Num(n: int) | Bool(b: bool) | Obj

  /** A plain object: its own enumerable properties. A property that is
      absent reads as `undefined`. */
  type Record = map<string, Value>

  /** JavaScript truthiness: `undefined`, `null`, `""`, `0` and `false`
      are falsy, everything else is truthy. */
  predicate Truthy(v: Value)
  {
    match v
    case Undefined => false
    case Null => false
    case Str(s) => s != ""
    case Num(n) => n != 0
    case Bool(b) => b
    case Obj => true
  }

  /** The string the `typeof` operator yields (`typeof null` is "object"). */
  function TypeOf(v: Value): string
  {
    match v
    case Undefined => "undefined"
    case Null => "object"
    case Str(_) => "string"
    case Num(_) => "number"
    case Bool(_) => "boolean"
    case Obj => "object"
  }

  /** Property read `obj[key]`. */
  function Get(obj: Record, key: string): Value
  {
    if key in obj then obj[key] else Undefined
  }

  /** Object spread `{ ...base, ...over }`: every property of `over`,
      even one explicitly `undefined`, replaces the one of `base`. */
  function Spread(base: Record, over: Record): (r: Record)
    ensures r.Keys == base.Keys + over.Keys
    ensures forall k :: Get(r, k) == if k in over then over[k] else Get(base, k)
  {
    base + over
  }
}
