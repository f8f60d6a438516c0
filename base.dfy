/** Optional values and error-carrying results shared by every stage of the pipeline. */
module Base {

  /** Python's `None` (or a search that found nothing) against a present value. */
  datatype Option<T> = None | Some(value: T)

  /** The outcome of a step that can raise: its value, or the error it raises. */
  datatype Result<T, E> = Ok(value: T) | Err(error: E)
}
