/** Option result; `None` stands for a raised `ValueError`. */
module Wrappers {

  datatype Option<+T> = None | Some(value: T)
}
