/** How calls end. */
module Outcomes {
  /** A call returns an error code, 0 for none, or it does what C leaves undefined (it
      divides by zero, or reads or writes outside an array), or it never ends. */
  datatype Outcome = Returns(error: nat) | Undefined | Endless
}
