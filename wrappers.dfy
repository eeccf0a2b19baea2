/** Option and Result values for the places where the JavaScript code
    returns `undefined` or throws. */
module Wrappers {

  datatype Option<+T> = None | Some(value: T)

  /** `Err` stands for a thrown exception; `error` names its cause. */
  datatype Result<+T, +E> = Ok(value: T) | Err(error: E)
}
