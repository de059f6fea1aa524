/** The failure-compatible Option type used where the modelled code can
    raise: `None` stands for the exception, `Some` for a value. */
module Options {

  datatype Option<+T> = None | Some(value: T)
}
