/** Failure-carrying result types shared by the codec and the device model.
    - Option<T>: a value or nothing;
    - Result<T, E>: a value or an error, the model of Go's `(T, error)` pair;
    - Outcome<E>: success or an error, the model of a bare Go `error` (nil = Pass).
 */
module Wrappers {

  datatype Option<+T> = None | Some(value: T)

  datatype Result<+T, +E> = Success(value: T) | Failure(error: E) {

    /** Forgets the error, keeping only whether a value was produced. */
    function ToOption(): (o: Option<T>)
      ensures o.Some? <==> Success?
      ensures o.Some? ==> o.value == value
    {
      match this
      case Success(v) => Some(v)
      case Failure(_) => None
    }
  }

  datatype Outcome<+E> = Pass | Fail(error: E)
}
