/** Failure-carrying results shared by every module of the model.
    A Rust `panic!`, `unwrap` on `None`, `todo!()` or out-of-bounds index
    becomes `Panic`; a recoverable `syn::Error` becomes `CompileError`. */
module Wrappers {

  datatype Option<+T> = None | Some(value: T) {
    function GetOr(default: T): T {
      match this
      case Some(v) => v
      case None => default
    }
  }

  datatype Failure = Panic(reason: string) | CompileError(message: string)

  datatype Result<+T> = Ok(value: T) | Err(failure: Failure)
}
