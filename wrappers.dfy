/** The two failure-compatible shapes the allocator needs: `Option` for the
    book's nullable slots and `Result` for operations that can fail. */
module Wrappers {

  datatype Option<+T> = None | Some(value: T)

  datatype Result<+T, +E> = Success(value: T) | Failure(error: E)
}
