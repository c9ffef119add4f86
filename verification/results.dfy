/** Failure-carrying values used by the post service model: `Option` stands for
    `java.util.Optional`, `Result` for "returns a value or throws". */
module Results {

  datatype Option<+T> = None | Some(value: T)

  datatype Result<+T, +E> = Success(value: T) | Failure(error: E)
}
