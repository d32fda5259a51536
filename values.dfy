/** The dynamically typed values that reach the HSN tool and its guardrail
    through the agent framework's tool arguments. */
module Values {

  datatype Option<+T> = None | Some(value: T)

  /** A tool-argument value: a string, a list, or any other scalar (None, a
      number, a boolean), of which only its Python truthiness matters. */
  datatype Value =
    | Str(s: string)
    | List(items: seq<Value>)
    | Other(truthy: bool)

  /** Python's `bool(v)`: empty strings and empty lists are false. */
  predicate Truthy(v: Value) {
    match v
    case Str(s) => s != ""
    case List(items) => items != []
    case Other(truthy) => truthy
  }

  /** The list value Python builds from a list of strings. */
  function StrList(codes: seq<string>): Value
  {
    List(seq(|codes|, k requires 0 <= k < |codes| => Str(codes[k])))
  }
}
