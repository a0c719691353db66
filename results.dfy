/** Optional values and fallible results, standing for Python's `None` and for
    the exceptions the pipeline lets escape. */
module Results {

  datatype Option<+T> = None | Some(value: T)

  datatype Result<+R, +E> = Success(value: R) | Failure(error: E)
}
