/** Outcomes and values of the Go runtime that the handlers and template helpers depend on. */
module Go {

  /** Why a Go operation panics. */
  datatype PanicCause =
    | IndexOutOfRange      // indexing a slice or a string outside its bounds
    | AssignmentToNilMap   // writing into a map variable that was declared but never made
    | FailedTypeAssertion  // `x.(T)` without the comma-ok form, on a value of another type
    | NilTypeKind          // `reflect.TypeOf(nil).Kind()`: a method call on a nil interface

  /** A returned `error` value (with its message), or a panic. */
  datatype Failure = Error(message: string) | Panic(cause: PanicCause)

  datatype Result<+T> = Ok(value: T) | Err(failure: Failure)

  datatype Option<+T> = None | Some(value: T)

  /** An `interface{}` argument passed to a template helper, by the dynamic type it holds. */
  datatype Value =
    | Str(s: string)                      // a string
    | StrMap(entries: map<string, Value>) // a map[string]interface{}
    | OtherMap                            // a map of any other key or value type
    | Nil                                 // the untyped nil
    | Scalar(n: int)                      // any other non-map value (numbers, structs, slices, ...)
}
