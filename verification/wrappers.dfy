/** The optional value used wherever the Java code may hand back `null` or
    may throw and have the exception caught further up. */
module Wrappers {

  /** `None` stands for Java's `null` (or for an exception the caller catches). */
  datatype Option<+T> = None | Some(value: T) {

    predicate IsFailure() {
      None?
    }

    function PropagateFailure<U>(): Option<U>
      requires None?
    {
      None
    }

    function Extract(): T
      requires Some?
    {
      value
    }
  }
}
