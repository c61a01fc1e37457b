/** The optional value used for the source's `None` results and parent links. */
module Wrappers {

  /** `None` stands for the source's `None`; `Some(v)` for a present value. */
  datatype Option<+T> = None | Some(value: T)
}
