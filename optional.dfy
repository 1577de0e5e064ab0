/** The absent-or-present value used wherever the JavaScript source has
    `undefined` or `null` beside a real value. */
module Optional {

  datatype Option<+T> = None | Some(value: T)
}
