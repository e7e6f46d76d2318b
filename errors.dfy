/// Failure kinds and the result wrappers shared by the whole model.
///
/// Rust gives every encodable its own `Error` type and requires it to absorb
/// the encoder's error through `From` (`src/lib.rs:69`). The model unifies all
/// of them into one `Error` datatype, so each `From` conversion is the
/// identity and "the error is propagated unchanged" is literal equality.
module Errors {

  /// Everything that can go wrong while encoding.
  datatype Error =
    | InsufficientSpace  // a fixed-capacity window could not take a write
    | TryFromIntError    // `core::num::TryFromIntError`: a size did not fit the narrower type

  datatype Result<+T> = Ok(value: T) | Err(error: Error)

  datatype Option<+T> = None | Some(value: T)
}
