/** Option and Result, used for the error paths of the modelled helpers. */
module Wrappers {

  datatype Option<+T> = None | Some(value: T)

  /** `Err` stands for a fatal `die(...)` in the source: it carries the message passed to `die`. */
  datatype Result<+T> = Ok(value: T) | Err(error: string)
}
