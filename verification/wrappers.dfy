/** Option and Result datatypes standing in for Java's null references and
    checked exceptions. */
module Wrappers {

  /** A possibly-absent value; `None` plays the role of a null reference. */
  datatype Option<+T> = None | Some(value: T)

  /** The outcome of an operation that may throw. */
  datatype Result<+R, +E> = Success(value: R) | Failure(error: E)

  /** The outcome of a recursion bounded by a depth budget: its value, or
      `OutOfFuel` when it would have gone deeper than the budget allows. */
  datatype Fuelled<+R> = Done(value: R) | OutOfFuel
}
