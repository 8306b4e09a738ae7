/** Failure-carrying datatypes shared by the model: an optional value, a
    result that is either a value or one of the errors the program raises. */
module Wrappers {

  datatype Option<+T> = None | Some(value: T)

  /** The exceptions the modelled code raises, by kind. */
  datatype Error =
    /** `ArgumentNullException` for the named parameter. */
    | ArgumentNull(param: string)
    /** `DirectoryNotFoundException` for the given path. */
    | DirectoryNotFound(path: string)
    /** Listing the files of the given existing directory threw (access
        refused, or the directory went away after the existence check). */
    | ListingFailed(path: string)
    /** Reading or deserialising the stored type list threw. */
    | ConfigMalformed
    /** Opening the artifact at the given path for writing threw. */
    | WriteDenied(path: string)
    /** The artifact at the given path was opened, but flushing the
        written text to it threw when the writer was disposed. */
    | WriteFailed(path: string)

  datatype Result<+R> = Success(value: R) | Failure(error: Error) {
    predicate IsFailure() {
      Failure?
    }

    function PropagateFailure<U>(): Result<U>
      requires Failure?
    {
      Failure(error)
    }

    function Extract(): R
      requires Success?
    {
      value
    }
  }
}
