/** The library's error type (src/error.rs) and the two wrappers the model uses
    for Rust's `Option` and `Result<_, Error>`. */
module Errors {

  /** Rust's `Option`. */
  datatype Option<+T> = None | Some(value: T)

  /** One variant per variant of the library's `Error` enum. Window handles
      (`isize` in the source) are unbounded integers here; error codes are the
      `i32` HRESULT values that the windows crate reports. */
  datatype Error =
    | WindowClassTitleBothEmpty
    | CannotFindWindow(windowClass: string, windowTitle: string)
    | WindowNotExist(windowHandle: int)
    | Win32ApiFailed(apiName: string, message: string, errorCode: Option<int>)

  /** `Result<T, Error>`. */
  datatype Result<+T> = Ok(value: T) | Err(error: Error)
}
