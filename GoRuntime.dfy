/** The two outcomes a Go call in the discovery code can have: it returns a
    value, or it panics. A panic is not recovered anywhere in the program, so
    a panic in one step ends the whole discovery run. */
module GoRuntime {

  datatype Option<+T> = None | Some(value: T)

  /** The run-time errors the discovery code can raise. */
  datatype PanicReason =
    | SliceBoundsOutOfRange   // `s[i:]` with `i > len(s)`
    | NilPointerDereference   // a method call on a nil `*url.URL`

  datatype Outcome<+T> = Ok(value: T) | Panic(reason: PanicReason) {

    predicate IsFailure() {
      Panic?
    }

    function PropagateFailure<U>(): Outcome<U>
      requires Panic?
    {
      Panic(reason)
    }

    function Extract(): T
      requires Ok?
    {
      value
    }
  }
}
