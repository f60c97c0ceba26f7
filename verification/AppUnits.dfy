/**
 * The app unit: 1/60 of a CSS pixel in a signed 32-bit integer. Every sum and
 * difference saturates; none wraps and none panics.
 */
module AppUnits {
  const AU_MIN := -0x8000_0000
  const AU_MAX := 0x7fff_ffff

  type Au = x: int | AU_MIN <= x <= AU_MAX

  function Saturate(x: int): (r: Au) {
    if x < AU_MIN then AU_MIN else if x > AU_MAX then AU_MAX else x
  }

  function SatAdd(a: Au, b: Au): Au {
    Saturate(a + b)
  }

  function SatSub(a: Au, b: Au): Au {
    Saturate(a - b)
  }

  function Max(a: int, b: int): int {
    if a < b then b else a
  }

  function Min(a: int, b: int): int {
    if b < a then b else a
  }

  /** Whether a mathematical result is representable, i.e. no saturation happens on the way to it. */
  predicate Fits(x: int) {
    AU_MIN <= x <= AU_MAX
  }
}
