/** Java-level building blocks shared by the registration model: the 32-bit
    `int` the entities count with, a nullable lookup result, and the
    (success flag, new state) pair every guarded transition returns. */
module JavaTypes {

  /** Java's `int`: two's-complement, 32 bits. Arithmetic on it is checked by
      the verifier, so a model that verifies proves the source never wraps. */
  newtype int32 = x: int | -0x8000_0000 <= x < 0x8000_0000

  /** A lookup that may come back `null` in the source. */
  datatype Option<+T> = None | Some(value: T)

  /** The outcome of a guarded transition: whether it took effect (the flag
      the source reports as a success or failure message) and the state
      afterwards. */
  datatype Step<+S> = Step(ok: bool, next: S)
}
