/** Optional value, for the partial computations of the model. */
module Wrappers {

  /** `None` stands for a computation the program cannot finish (an exception). */
  datatype Option<+T> = None | Some(value: T)
}
