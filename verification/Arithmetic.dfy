/** The smaller and the larger of two numbers, as every component of the model uses them. */
module Arithmetic {
  function Min(a: int, b: int): int { if a <= b then a else b }

  function Max(a: int, b: int): int { if a >= b then a else b }
}
