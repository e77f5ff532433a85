/** Two's complement arithmetic in 64 bits, as Go's int64 and time.Duration do it. */
module Int64 {
  const MAX := 0x7FFF_FFFF_FFFF_FFFF
  const MIN := -0x8000_0000_0000_0000

  predicate Fits(x: int) {
    MIN <= x <= MAX
  }

  /** The number in the 64-bit range with the same remainder. */
  function Wrap(x: int): (r: int)
    ensures Fits(r) && (r - x) % 0x1_0000_0000_0000_0000 == 0
    ensures Fits(x) ==> r == x
  {
    (x + 0x8000_0000_0000_0000) % 0x1_0000_0000_0000_0000 - 0x8000_0000_0000_0000
  }
}
