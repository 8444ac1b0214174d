/** Small failure-carrying datatypes shared by the other modules. */
module Wrappers {

  /** `None` stands for JavaScript's `null` / `NaN` / "no value". */
  datatype Option<+T> = None | Some(value: T)

  /** The answer of one datastore call: a value, or the error it threw. */
  datatype Outcome<+T> = Done(value: T) | Threw(message: string)
}
