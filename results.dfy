/** Swift's optionals and thrown errors, as values. */
module Results {

  /** `T?` in Swift: a value or `nil`. */
  datatype Option<+T> = None | Some(value: T)

  /** The outcome of a throwing call: the returned value or the thrown error. */
  datatype Result<+T, +E> = Success(value: T) | Failure(error: E)
}
