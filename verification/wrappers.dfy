/** Failure-compatible option type shared by the search functions of the model. */
module Wrappers {

  /** `Some(value)` when a search succeeded, `None` when it found nothing. */
  datatype Option<+T> = None | Some(value: T)
}
