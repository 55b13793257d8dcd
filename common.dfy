/** Small value types shared by every module: optional values (Go's nil
    pointers), results (Go's `(value, error)` pairs) and opaque errors. */
module Common {

  datatype Option<T> = None | Some(value: T)

  datatype Result<T, E> = Success(value: T) | Failure(error: E)

  /** An error returned by a collaborator (the filesystem, the notifier).
      Only its identity matters to the model. */
  datatype Error = Error(msg: string)
}
