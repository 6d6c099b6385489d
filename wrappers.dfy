/** The optional value used where the converter may have nothing to work on (an unreadable file, no explicit output path). */
module Wrappers {
  datatype Option<+T> = None | Some(value: T)
}
