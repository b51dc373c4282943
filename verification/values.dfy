/** The Python values the handler inspects (session attributes, request
    envelopes) and the exceptions its lookups can raise. */
module Values {

  /** A JSON-shaped Python value. Dictionary keys are strings. */
  datatype Value =
    | Dict(fields: map<string, Value>)
    | Str(text: string)
    | Int(n: int)
    | Bool(b: bool)
    | List(items: seq<Value>)
    | Null
    | Object   // an SDK model object, such as the request envelope: not a dict

  /** Python's truth test (`if v:`): empty containers, empty strings, zero,
      False and None are false. */
  predicate Truthy(v: Value) {
    match v
    case Dict(m) => |m| > 0
    case Str(s) => |s| > 0
    case Int(n) => n != 0
    case Bool(b) => b
    case List(xs) => |xs| > 0
    case Null => false
    case Object => true
  }

  /** Dicts, lists and SDK model objects (which define `__eq__` without
      `__hash__`) cannot be used as a dictionary key. */
  predicate Hashable(v: Value) {
    !v.Dict? && !v.List? && !v.Object?
  }

  /** The exceptions the modelled code can raise. */
  datatype Error =
    | AttributeError(message: string)
    | KeyError(key: Value)
    | TypeError
    | IndexError
}
