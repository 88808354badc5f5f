/** The optional value used for every step that can fail: a failed allocation, a read or write
    outside the memory the model is given, an instruction walk that leaves its code. */
module Outcomes {

  datatype Option<+T> = None | Some(value: T) {

    predicate IsFailure() {
      None?
    }

    function PropagateFailure<U>(): Option<U>
      requires None?
    {
      None
    }

    function Extract(): T
      requires Some?
    {
      value
    }
  }
}
