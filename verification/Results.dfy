/** Results and options used in place of the error enumeration and `Option` of the library. */
module Results {

  /** The errors the modelled operations return (src/error.rs). */
  datatype Error =
    | Hash                 // the digest back end refused a call
    | InvalidParams        // unsupported Winternitz parameter
    | TraversalState       // a layer of the traversal cache is missing
    | KeyExhausted         // every one-time index has been spent
    | VerificationFailed   // the signature is not valid

  datatype Option<+T> = None | Some(value: T)

  /** A failure-compatible result, usable with `:-`. */
  datatype Result<+T> = Success(value: T) | Failure(error: Error) {
    predicate IsFailure() {
      Failure?
    }

    function PropagateFailure<U>(): Result<U>
      requires Failure?
    {
      Failure(error)
    }

    /** The same outcome with another value. */
    function With<U>(u: U): Result<U> {
      match this
      case Success(_) => Success(u)
      case Failure(e) => Failure(e)
    }

    function Extract(): T
      requires Success?
    {
      value
    }
  }
}
