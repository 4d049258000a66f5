/** The absent-or-present value used throughout the model. Python's `None`
    becomes `None`, any other value `v` becomes `Some(v)`. It is
    failure-compatible, so parsers can chain steps with `:-`. */
module Wrappers {

  datatype Option<+T> = None | Some(value: T) {

    predicate IsFailure() {
      None?
    }

    function PropagateFailure<U>(): Option<U>
      requires None?
    {
      None
    }

    function Extract(): T
      requires Some?
    {
      value
    }
  }

}
