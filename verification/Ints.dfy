module Ints {
  function Min(a: int, b: int): int {
    if a <= b then a else b
  }

  function Max(a: int, b: int): int {
    if a <= b then b else a
  }

  /** Position x confined to [lo, hi]. */
  function Clamp(x: int, lo: int, hi: int): int {
    Max(lo, Min(x, hi))
  }
}
