/** Failure-carrying datatypes shared by the modules of the chunk pipeline. */
module Wrappers {

  datatype Option<+T> = None | Some(value: T)

  datatype Result<+R, +E> = Success(value: R) | Failure(error: E)

  /** The Python exceptions the pipeline raises or lets escape, with their message text. */
  datatype PyException =
    | RuntimeError(message: string)
    | ValueError(message: string)
    | OSError(message: string)
    | AttributeError(message: string)
}
