/** Go's integers on a 64-bit machine: int wraps at 2^63, and uint64 at 2^64. */
module Int64 {

  const MAX_INT: int := 0x7fff_ffff_ffff_ffff

  const U64: nat := 0x1_0000_0000_0000_0000

  /** Two's-complement wrap-around of Go's 64-bit int. */
  function Wrap(x: int): int {
    (x + MAX_INT + 1) % (2 * MAX_INT + 2) - (MAX_INT + 1)
  }

  lemma WrapRange(x: int)
    ensures -MAX_INT <= x <= MAX_INT ==> Wrap(x) == x
    ensures MAX_INT < x <= 2 * MAX_INT ==> Wrap(x) < 0
  {
  }
}
