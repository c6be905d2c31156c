/** A value that may be absent: JavaScript's `null` (an unset error slot, a
    missing `localStorage` entry) or a reading that failed. */
module Wrappers {

  datatype Option<T> = None | Some(value: T)
}
