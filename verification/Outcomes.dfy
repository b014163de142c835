/** How calls come back. */
module Outcomes {
  /** Normally, with an exception, or not at all because the process ended. */
  datatype Status = Normal | Thrown | Exited {
    predicate IsFailure() {
      !Normal?
    }

    function PropagateFailure(): Status {
      this
    }
  }
}
