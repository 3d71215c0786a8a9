/** The two error-carrying shapes the modelled code uses: Rust's `Option`
    and a `Result` whose error type is the unit type `()`. */
module Wrappers {

  datatype Option<+T> = None | Some(value: T)

  /** `std::result::Result<T, ()>`: the error carries no payload. */
  datatype Result<+T> = Ok(value: T) | Err
}
