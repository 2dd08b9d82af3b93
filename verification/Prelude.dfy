/** Small vocabulary shared by all modules. */
module Prelude {
  datatype Option<+T> = None | Some(value: T)

  /** Outcome of a foreign call that may decline (return a false value) or raise. */
  datatype Call = Done | Refused | Raises
}
