/** The two failure-carrying result types shared by the modules of this project. */
module Options {

  /** A nullable value. */
  datatype Option<+T> = None | Some(value: T)

  /** Either a value or the error that the program throws. */
  datatype Result<+T, +E> = Success(value: T) | Failure(error: E)
}
