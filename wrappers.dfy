/** The failure-compatible Option datatype shared by both components. */
module Wrappers {

  /** A value that may be absent: a missing POST field, a failed parse, a missing row. */
  datatype Option<+T> = None | Some(value: T) {

    predicate IsFailure() {
      None?
    }

    function PropagateFailure<U>(): Option<U>
      requires None?
    {
      None
    }

    function Extract(): T
      requires Some?
    {
      value
    }
  }
}
