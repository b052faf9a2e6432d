/** The optional value used wherever the watcher's code returns `false`,
    `null` or `undefined` in place of a result. */
module Wrappers {
  datatype Option<+T> = None | Some(value: T)
}
