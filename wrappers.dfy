/** The optional value used for the component's edit slot and for lookups. */
module Wrappers {

  /** `None` stands for JavaScript's `undefined`, `Some(v)` for a present value. */
  datatype Option<+T> = None | Some(value: T)
}
