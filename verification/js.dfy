/** The slice of JavaScript's value model shared by the snippets.

    Numbers are modelled as mathematical integers, so NaN, -0 and fractions do
    not arise; objects (including arrays used as opaque values) are references
    compared by identity. */
module Js {

  datatype Value =
    | Undefined
    | Null
    | Bool(b: bool)
    | Num(n: int)
    | Str(s: string)
    | Ref(id: nat)

  /** JavaScript's ToBoolean: the falsy values are undefined, null, false, 0 and "". */
  predicate Truthy(v: Value)
  {
    match v
    case Undefined => false
    case Null => false
    case Bool(b) => b
    case Num(n) => n != 0
    case Str(s) => s != ""
    case Ref(_) => true
  }

  /** `===` on the modelled values: same type and same value, objects by identity. */
  predicate StrictEquals(a: Value, b: Value)
  {
    a == b
  }

  /** How a synchronous call ends: with a return value or a thrown value. */
  datatype Completion = Normal(value: Value) | Throw(error: Value)

  /** An argument that may be omitted (`undefined`). */
  datatype Option<+T> = None | Some(value: T)
  {
    function GetOr(default: T): T
    {
      match this
      case Some(v) => v
      case None => default
    }
  }
}
