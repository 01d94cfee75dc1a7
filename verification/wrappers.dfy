/** Failure-compatible option type shared by every module of the model.
    `None` stands for JavaScript's `null`/`undefined`, for `NaN`, and for a thrown error. */
module Wrappers {

  datatype Option<+T> = None | Some(value: T)
}
