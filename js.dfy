/** JavaScript-level outcomes: `undefined`, thrown exceptions, and completions. */
module Js {

  /** A value that may be `undefined`. */
  datatype Option<+T> = None | Some(value: T)

  /** The exceptions the preprocessor can raise. */
  datatype JsError =
    | TypeError     // a property of `undefined` (or of `true`) was read
    | SpliceError   // the edit buffer refused an edit (zero-length or overlapping range)

  /** The result of an expression that may throw. */
  datatype Result<+T> = Value(value: T) | Thrown(error: JsError)

  /** The completion of a statement that may throw. */
  datatype Completion = Normal | Abrupt(error: JsError)

  /** Concatenation of JavaScript strings and arrays is associative. */
  lemma AppendAssoc<T>(a: seq<T>, b: seq<T>, c: seq<T>)
    ensures a + (b + c) == (a + b) + c
  {
  }
}
