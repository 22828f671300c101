/** Small failure-carrying datatypes shared by the modules of this model. */
module Wrappers {

  datatype Option<+T> = None | Some(value: T)

  datatype Result<+T, +E> = Success(value: T) | Failure(error: E)

  /** The outcome of a call into a collaborator that may raise a Python exception
      carrying a message (the vector store, the assistant service). */
  datatype Call<+T> = Ok(value: T) | Raised(message: string)
}
