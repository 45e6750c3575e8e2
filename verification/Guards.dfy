/** Guards for large invariants: a predicate `forall b :: Look(b) ==> P` is the same as `P`, but its body
    is only opened where `Look` is mentioned. */
module Guards {
  ghost predicate Look(b: bool) {
    true
  }

  /** The same for an invariant that holds guarded ones. */
  ghost predicate Peek(b: bool) {
    true
  }
}
