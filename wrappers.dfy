/** Small failure-carrying datatypes shared by the other modules. */
module Wrappers {

  /** An optional value: a record that may be missing. */
  datatype Option<+T> = None | Some(value: T)

  /** The outcome of one call to the external user API: the parsed body of
      a successful response, or a failure (a non-2xx status or a thrown
      transport error, which the source does not tell apart). */
  datatype Response<+T> = Ok(value: T) | Failed
}
