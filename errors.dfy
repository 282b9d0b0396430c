/**
 * Error kinds and result wrappers. A C function of the library returns a
 * negative value and sets `errno`; here it returns `Err(e)` with the error
 * kind it would have left in `errno`.
 */
module Errors {

  /** The `errno` values the register engine produces or passes on. */
  datatype Errno = EINVAL | EIO | ENOENT | ERANGE | ENODEV | EBADF | ENODATA

  datatype Result<T> = Ok(value: T) | Err(error: Errno)

  datatype Option<T> = None | Some(value: T)
}
