/** Small types shared by the other modules. */
module Basics {

  datatype Option<+T> = None | Some(value: T)

  datatype Result<+T, +E> = Ok(value: T) | Err(error: E)

  /** The two phase flips. */
  datatype Direction = PpToTp | TpToPp
}
