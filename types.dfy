/** Types shared by the fingerprint, decoder and handler models. */
module Types {

  /** An 8-bit byte, as Go's `byte`. */
  newtype byte = x: int | 0 <= x < 0x100

  const TWO_TO_THE_64: int := 0x1_0000_0000_0000_0000

  /** An unsigned 64-bit integer, as Go's `uint64` (and `uintptr` on amd64). */
  newtype u64 = x: int | 0 <= x < 0x1_0000_0000_0000_0000

  /** Go's wrapping subtraction `a - b` on 64-bit unsigned operands: the unique
      64-bit value that, added to `b` modulo 2^64, gives back `a`. */
  function Sub64(a: u64, b: u64): (d: u64)
    ensures (b as int + d as int) % TWO_TO_THE_64 == a as int
    ensures a >= b ==> d as int == a as int - b as int
  {
    ((a as int - b as int) % TWO_TO_THE_64) as u64
  }

  /** Go's wrapping addition on 64-bit unsigned operands. */
  function Add64(a: u64, b: u64): u64
  {
    ((a as int + b as int) % TWO_TO_THE_64) as u64
  }

  /** Adding a displacement back to the base address recovers the target. */
  lemma DisplacementRoundTrip(target: u64, base: u64)
    ensures Add64(base, Sub64(target, base)) == target
  {
  }

  /** A displacement of zero means the two addresses are equal. */
  lemma ZeroDisplacement(a: u64, b: u64)
    ensures Sub64(a, b) == 0 <==> a == b
  {
  }

  /** No element of `s` occurs twice. */
  ghost predicate Distinct<T>(s: seq<T>)
  {
    forall i, j :: 0 <= i < j < |s| ==> s[i] != s[j]
  }

  datatype Option<+T> = None | Some(value: T)

  datatype Result<+T, +E> = Success(value: T) | Failure(error: E)

  /** A Go `error`, observed through its message. */
  datatype Error = Error(message: string)

  /** `errors.Wrapf(cause, message)` of github.com/pkg/errors: the wrapped
      error reads as the message, a colon, and the cause's message. */
  function Wrap(cause: Error, message: string): Error
  {
    Error(message + ": " + cause.message)
  }
}
