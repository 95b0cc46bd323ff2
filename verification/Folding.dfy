/** How large invariants are kept out of the way: an invariant stated under `Unlock(key)` for all keys
    stays folded until `Unlock(true)` is mentioned. */
module Folding {

  /** Always true. */
  ghost predicate Unlock(key: bool) {
    true
  }
}
