/** Results of operations that raise an IndexError on lists that are too short, or have no result. */
module Outcomes {
  datatype Outcome<T> = Returned(value: T) | IndexError
  datatype Option<T> = None | Some(value: T)
}
