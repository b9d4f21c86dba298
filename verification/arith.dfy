/** The element arithmetic of the transforms, kept abstract: the source works
    on double-precision complex numbers with cos/sin twiddle factors, which
    are out of reach here, so every operation is an arbitrary function. */
module Arith {

  /** add, sub and mul stand for complex +, - and *; one is the complex 1;
      tw(k, n) stands for the twiddle factor e^(-2 pi i k / n), the value
      cos(-2 pi k / n) + i sin(-2 pi k / n) that the source computes. */
  datatype Ops<!T> = Ops(
    add: (T, T) -> T,
    sub: (T, T) -> T,
    mul: (T, T) -> T,
    one: T,
    tw: (nat, nat) -> T)

  /** The running factor w of a butterfly block after j steps of
      `w *= wlen`, starting from w = 1. */
  function RunningTwiddle<T>(ops: Ops<T>, wlen: T, j: nat): T
  {
    if j == 0 then ops.one else ops.mul(RunningTwiddle(ops, wlen, j - 1), wlen)
  }
}
