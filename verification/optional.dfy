/** The absent-or-present value used throughout the model: JavaScript's
    `null` for an optional field, Python's `None` for a failed lookup. */
module Optional {

  datatype Option<+T> = None | Some(value: T)
}
