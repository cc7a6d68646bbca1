/** Results of kernel operations that can stop the machine, and optional values. */
module Outcomes {

  /** `Panic(msg)` is the kernel's `panic(msg)`: the operation never returns. */
  datatype Outcome<+T> = Ok(value: T) | Panic(msg: string)

  /** A possibly-null pointer. */
  datatype Option<+T> = None | Some(value: T)
}
