/** Optional values and error results: a thrown exception of the converter
    becomes a `Failure` carrying its message. */
module Wrappers {

  datatype Option<T> = None | Some(value: T)

  datatype Result<T> = Success(value: T) | Failure(error: string)
  {
    predicate IsFailure()
    {
      Failure?
    }
  }

  /** A decoder's array and status agree with a decoding result: the same
      pixels on success, the same message on failure. */
  predicate Produces<T(==)>(r: Result<seq<T>>, pixels: seq<T>, status: Result<()>)
  {
    match r
    case Success(value) => status.Success? && pixels == value
    case Failure(e) => status == Failure(e)
  }
}
