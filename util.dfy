/** Result types shared by the whole model: the library's nullable pointers
    become Option, and util::Status / StatusOr become Status / StatusOr. */
module Util {

  /** A pointer that may be null. */
  datatype Option<+T> = None | Some(value: T)

  /** The error codes that the modelled code can return. */
  datatype ErrorCode = InvalidArgument

  /** util::Status: success, or an error code with a human-readable message. */
  datatype Status = Ok | Error(code: ErrorCode, message: string)

  /** util::StatusOr<T>: a value, or an error code with a message. */
  datatype StatusOr<+T> = Value(value: T) | Failure(code: ErrorCode, message: string)
}
