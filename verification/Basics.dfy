/** Small vocabulary shared by every model. */
module Basics {
  datatype Option<+T> = None | Some(value: T)
}
