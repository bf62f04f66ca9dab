/** The error kinds of src/errors.rs, as plain values.
    Only `SystemTimeError` is ever produced by the modelled core. */
module Errors {

  /** A strictly positive count of nanoseconds. */
  type Positive = n: nat | n > 0 witness 1

  /** Errors reported by a Spore capability. */
  datatype SporeError =
    | SignError(message: string)
    | VerifyError(message: string)
    | ResolveError(message: string)

  /** Errors reported by Mycelium operations. `SystemTimeError` carries how
      far (in nanoseconds, never zero) the clock reading lies before the
      UNIX epoch. */
  datatype MyceliumError =
    | SystemTimeError(behind: Positive)
    | SignatureError(reason: string)
    | SporeError(cause: SporeError)
}
