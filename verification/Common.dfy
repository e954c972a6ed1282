/** Wrapper types shared by the models. */
module Common {

  /** A value that the program may find absent (`null`, `undefined` or a missing file). */
  datatype Option<+T> = None | Some(value: T)

  /** The outcome of an operation that can throw. */
  datatype Result<+T> = Ok(value: T) | Error
}
