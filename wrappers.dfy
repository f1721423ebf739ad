/// The "element or nothing" result of the list's remove operations. The C
/// code returns a NULL pointer for "nothing"; here that is `None`.
module Wrappers {
  datatype Option<T> = None | Some(value: T)
}
