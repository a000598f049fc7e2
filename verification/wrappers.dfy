/** The optional-value wrapper shared by the model's modules. */
module Wrappers {

  /** A value that may be absent: JavaScript's `undefined` on one side, a present value on the other. */
  datatype Option<+T> = None | Some(value: T)
}
