/** Return values for the operations of the model: the two exceptions the
    Python code raises become error values instead of a requires clause. */
module Wrappers {

  /** KeyError: an unknown vertex or element; ValueError: a precondition of
      the algorithm (a duplicate element, a negative edge weight). */
  datatype Error = KeyError | ValueError

  datatype Result<T> = Ok(value: T) | Err(error: Error)

  /** The outcome of an operation that returns nothing but may raise. */
  datatype Outcome = Pass | Fail(error: Error)

  datatype Option<T> = None | Some(value: T)

  /** Some element of a non-empty set: the next element of an iteration
      over a Python set or dictionary, whose order is not modelled. */
  method Pick<X>(s: set<X>) returns (e: X)
    requires s != {}
    ensures e in s
  {
    e :| e in s;
  }
}
