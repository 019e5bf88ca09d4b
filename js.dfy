/** The JavaScript values the validators and `stringify` inspect. Arrays,
    symbols, functions and the non-finite numbers are not represented. */
module Js {
  import opened Common

  datatype Value =
    | Undefined
    | Null
    | Bool(b: bool)
    | Number(n: real)
    | Str(s: string)
    | Buffer(bytes: Bytes)
    | Object(entries: seq<(string, Value)>)

  /** JavaScript truthiness: `undefined`, `null`, `false`, `0` and `''` are falsy;
      every buffer and every object is truthy. */
  predicate Truthy(v: Value) {
    match v
    case Undefined => false
    case Null => false
    case Bool(b) => b
    case Number(n) => n != 0.0
    case Str(s) => s != ""
    case Buffer(_) => true
    case Object(_) => true
  }

  /** `Number.isInteger(v)`. */
  predicate IsInteger(v: Value) {
    v.Number? && v.n.Floor as real == v.n
  }

  /** A destructured property of a parameter object: `undefined` when absent. */
  function Prop(params: map<string, Value>, k: string): Value {
    if k in params then params[k] else Undefined
  }

  /** The keys a `...rest` pattern collects after destructuring `names`. */
  function Rest(params: map<string, Value>, names: set<string>): set<string> {
    params.Keys - names
  }
}
