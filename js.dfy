/** The JavaScript values that reach the request handlers, the truthiness test
    (`if (x)`, `!x`) with which the handlers validate them, and the string concatenation (`+`,
    `+=`) with which the parser's pieces and the search statement are put together. */
module Js {

  /** A value that may be absent (`undefined` in the source). */
  datatype Option<+T> = None | Some(value: T)

  /** What a parsed request body can be. Numbers are modelled as integers. */
  datatype Value =
    | Undefined
    | Null
    | Boolean(b: bool)
    | Number(n: int)
    | Str(s: string)
    | Object

  /** JavaScript truthiness: `if (v)` takes its branch exactly when Truthy(v). */
  predicate Truthy(v: Value) {
    match v
    case Undefined => false
    case Null => false
    case Boolean(b) => b
    case Number(n) => n != 0
    case Str(s) => s != ""
    case Object => true
  }

  /** An optional string field as a JavaScript value: absent is `undefined`. */
  function OfOption(o: Option<string>): Value {
    match o
    case None => Undefined
    case Some(s) => Str(s)
  }

  /** Truthiness of an optional string field: present and not the empty string. */
  predicate Present(o: Option<string>) {
    Truthy(OfOption(o))
  }

  /** String concatenation is associative: the proofs about the parser's pieces and about the
      search statement regroup concatenations with it. */
  lemma AppendAssoc(x: string, y: string, z: string)
    ensures (x + y) + z == x + (y + z)
  {
  }
}
