// What the other modules share: a result type, and a way to keep a predicate
// folded.
module Wrappers {
  datatype Option<+T> = None | Some(value: T)

  // A predicate stated for all k that Unfolds is passed on as it is by a proof
  // that does not mention Unfolds.
  predicate Unfolds(k: int) {
    true
  }
}
