/** Types every other module uses. */
module Prelude {
  datatype Option<+T> = None | Some(value: T)
}
