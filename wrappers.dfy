/** Absent-or-present values: a request whose `locale` is `undefined` carries
    `None`. */
module Wrappers {
  datatype Option<+T> = None | Some(value: T)
}
