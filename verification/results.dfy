/** Failure-carrying wrappers used by the macro model: an optional value and
    a value-or-error result (the Swift `throws` of an expansion). */
module Results {

  datatype Option<+T> = None | Some(value: T)

  datatype Result<+T, +E> = Success(value: T) | Failure(error: E)
}
