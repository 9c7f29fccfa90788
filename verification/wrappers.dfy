/** Option and Result, the two failure-carrying shapes the model uses. */
module Wrappers {

  /** A value that may be missing, as IndexedDB's `undefined` result of a `get`. */
  datatype Option<+T> = None | Some(value: T)

  /** The result of a storage-engine step that may fail with a DOMException. */
  datatype Result<+T, +E> = Ok(value: T) | Err(error: E)
}
