/** Failure-compatible result types shared by every component of the model.
    The source signals failure by throwing; here a thrown error becomes a
    `Failure` carrying the error's message. */
module Wrappers {

  datatype Option<+T> = None | Some(value: T)

  datatype Result<+R, +E> = Success(value: R) | Failure(error: E)
  {
    /** Applies `f` to a success value, passing a failure through unchanged. */
    function MapSuccess<U>(f: R -> U): (r: Result<U, E>)
      ensures r.Success? <==> Success?
      ensures Failure? ==> r.error == error
    {
      match this
      case Success(v) => Success(f(v))
      case Failure(e) => Failure(e)
    }
  }
}
