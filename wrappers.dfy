/** Optional values and error results, as the table's public interface returns them. */
module Wrappers {

  /** An optional value: `std::optional` in the source. */
  datatype Option<+T> = None | Some(value: T)

  /** A value or the error that prevented it. */
  datatype Result<+T, +E> = Success(value: T) | Failure(error: E)
}
