/** What the init byte and the guard byte of a guard object hold. */
module GuardBytes {
  const UNSET := 0
  const COMPLETE := 1
  const PENDING := 2
  const PENDING_WAITING := 6

  predicate HasPending(b: int) { b / 2 % 2 == 1 }

  predicate HasWaiting(b: int) { b / 4 % 2 == 1 }
}
