/** Outcomes of the conversions that can fail, in place of the exceptions the library throws. */
module Results {

  /** The kinds of exception the library raises, plus a marker for a NaN produced by a failed number parse. */
  datatype Error =
    | SyntaxError     // malformed hex or Munsell string, unknown ifReachMax specifier
    | IterationLimit  // the inverse solver ran out of iterations under the 'error' policy
    | RangeError      // Number.prototype.toFixed asked for more than 100 digits
    | NotANumber      // a Munsell string whose numeric token did not parse (NaN in the source)

  datatype Result<+T> = Ok(value: T) | Fail(error: Error)

  /** A value that may be absent, as `null` is in String.prototype.match. */
  datatype Option<+T> = None | Some(value: T)

  /** A JavaScript number as produced by a string parser: a real, or NaN. */
  datatype Num = Finite(r: real) | NaN
}
