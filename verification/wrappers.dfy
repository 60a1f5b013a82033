/** The optional value used wherever the modelled code returns `nil` or an error. */
module Wrappers {

  /** `None` stands for Go's `nil` address or a non-nil `error` result. */
  datatype Option<+T> = None | Some(value: T)
}
