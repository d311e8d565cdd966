/** The optional-value datatype used throughout the model. */
module Wrappers {

  datatype Option<+T> = None | Some(value: T)

  /** How a JavaScript call ends: with a value, or by throwing (a `TypeError` in every
      place the model uses it). */
  datatype Completion<+T> = Done(value: T) | Threw
}
