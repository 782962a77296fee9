/** The optional value used for Python's `None` throughout the model. */
module Options {

  /** `None` stands for Python's `None`; `Some(v)` for a present value `v`. */
  datatype Option<+T> = None | Some(value: T)
}
