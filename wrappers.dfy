/** Small helper datatypes shared by the other modules. */
module Wrappers {

  /** Python's `Optional[...]`: a value or `None`. */
  datatype Option<+T> = None | Some(value: T)

  /** The upper bound of `range_frag`: a number, or `float("inf")`. */
  datatype MaxCount = Finite(n: nat) | Unbounded

  /** `max_count > k`. */
  predicate Exceeds(max: MaxCount, k: int) {
    max.Unbounded? || max.n > k
  }
}
